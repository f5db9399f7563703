/** The incremental memory search: candidates seeded from a range, then filtered again and again
    against a value or against what each held at the filter before. */
module RamSearch {
  import opened HostTypes
  import opened IntegerLaws

  /** A moment of guest memory, as the value of the cell at each address. */
  type Snapshot = uint32 -> uint32

  datatype Op = Eq | Ne | Lt | Gt | Inc | Dec | Changed | Unchanged | Unknown

  /** One filter request at one moment; the exact value may be missing. */
  datatype Filter = Filter(op: Op, value: Option<uint32>, memory: Snapshot)

  const MAX_CELLS := 4 * 1024 * 1024

  // ----- seeding --------------------------------------------------------------

  function Width(requested: int): nat {
    if requested == 1 || requested == 2 || requested == 4 then requested else 4
  }

  function End(lo: uint32, hi: uint32, w: nat): uint32 {
    if hi <= lo then (lo + w) % TWO32 else hi
  }

  /** The loop's 32-bit walk, with room for `room` more candidates. */
  function Walk(a: uint32, hi: uint32, w: nat, room: nat): seq<uint32>
    decreases room
  {
    if room == 0 || (a + w) % TWO32 > hi then [] else [a] + Walk((a + w) % TWO32, hi, w, room - 1)
  }

  /** Addresses of n consecutive cells. */
  function Cells(lo: nat, w: nat, n: nat): seq<nat>
    decreases n
  {
    if n == 0 then [] else [lo] + Cells(lo + w, w, n - 1)
  }

  /** How many whole cells lie in [lo, hi), up to the cap. */
  function CellCount(lo: nat, hi: nat, w: nat): nat
    requires w > 0 && lo <= hi
  {
    var n := (hi - lo) / w;
    if n < MAX_CELLS then n else MAX_CELLS
  }

  /** While whole cells fit, the walk takes them one after the other. */
  lemma {:induction false} WalkTakesCells(a: uint32, hi: uint32, w: nat, room: nat, n: nat)
    requires w > 0 && n <= room && a + n * w <= hi
    ensures Walk(a, hi, w, room) == Cells(a, w, n) + Walk(a + n * w, hi, w, room - n)
    decreases n
  {
    hide Walk;
    if n > 0 {
      var b := a + w;
      OneCellFirst(a, hi, w, n);
      WalkFirst(a, hi, w, room);
      WalkTakesCells(b, hi, w, room - 1, n - 1);
      var tail := Walk(b + (n - 1) * w, hi, w, room - n);
      assert [a] + (Cells(b, w, n - 1) + tail) == ([a] + Cells(b, w, n - 1)) + tail;
    } else {
      assert n * w == 0;
      assert [] + Walk(a, hi, w, room) == Walk(a, hi, w, room);
    }
  }

  lemma WalkFirst(a: uint32, hi: uint32, w: nat, room: nat)
    requires room > 0 && a + w <= hi
    ensures Walk(a, hi, w, room) == [a] + Walk(a + w, hi, w, room - 1)
  {
  }

  lemma OneCellFirst(a: nat, hi: nat, w: nat, n: nat)
    requires n > 0 && a + n * w <= hi
    ensures a + n * w == (a + w) + (n - 1) * w && a + w <= hi
  {
    ProductOrder(n - 1, 0, w);
  }

  lemma {:induction false} CellsLength(lo: nat, w: nat, n: nat)
    ensures |Cells(lo, w, n)| == n
    decreases n
  {
    if n > 0 {
      CellsLength(lo + w, w, n - 1);
    }
  }

  lemma {:induction false} CellAt(lo: nat, w: nat, n: nat, i: nat)
    requires i < n
    ensures |Cells(lo, w, n)| == n && Cells(lo, w, n)[i] == lo + i * w
    decreases n
  {
    CellsLength(lo, w, n);
    if i > 0 {
      CellAt(lo + w, w, n - 1, i - 1);
      assert i * w == (i - 1) * w + w;
    }
  }

  /** As many cells as fit before the end, but at most four million. */
  lemma CellCountIsLargest(lo: nat, hi: nat, w: nat, n: nat)
    requires w > 0 && lo <= hi
    ensures n <= CellCount(lo, hi, w) <==> n <= 4194304 && lo + n * w <= hi
  {
    hide CellCount;
    CellCountFits(lo, hi, w);
    CountWithinCap(lo, hi, w);
    ProductOrder(CellCount(lo, hi, w), n, w);
    ProductOrder(n, CellCount(lo, hi, w) + 1, w);
  }

  lemma CellCountFits(lo: nat, hi: nat, w: nat)
    requires w > 0 && lo <= hi
    ensures var n := CellCount(lo, hi, w);
      lo + n * w <= hi && (n < MAX_CELLS ==> hi < lo + n * w + w)
  {
    var q := (hi - lo) / w;
    ProductOrder(q, CellCount(lo, hi, w), w);
    assert (hi - lo) == q * w + (hi - lo) % w;
  }

  /** The seeds are exactly the whole cells of [lo, hi), up to the cap, if and only if the cap is reached or
      one more cell would still end below 4 GiB: otherwise the walk wraps around and goes on from address 0. */
  lemma SeedsAreTheCellsIff(lo: uint32, hi: uint32, requested: int)
    requires lo < hi
    ensures var w := if requested in {1, 2, 4} then requested else 4;
      var n := CellCount(lo, hi, w);
      w == Width(requested) &&
      (Walk(lo, hi, w, MAX_CELLS) == Cells(lo, w, n) <==> n == MAX_CELLS || lo + n * w + w < TWO32)
  {
    hide CellCount, Walk, Cells;
    var w := Width(requested);
    var n := CellCount(lo, hi, w);
    assert n <= MAX_CELLS by {
      CountWithinCap(lo, hi, w);
    }
    CellCountFits(lo, hi, w);
    WalkTakesCells(lo, hi, w, MAX_CELLS, n);
    CellsLength(lo, w, n);
    WalkEnds(lo + n * w, hi, w, MAX_CELLS - n);
  }

  /** An empty range stands for the one cell at its start, if and only if that cell ends past the address space or
      the next one would still end below 4 GiB. */
  lemma EmptyRangeSeedsOneCellIff(lo: uint32, hi: uint32, requested: int)
    requires hi <= lo
    ensures var w := if requested in {1, 2, 4} then requested else 4;
      w == Width(requested) &&
      (Walk(lo, End(lo, hi, w), w, MAX_CELLS) == [lo] <==> lo + w >= TWO32 || lo + 2 * w < TWO32)
  {
    hide Walk, CellCount;
    var w := Width(requested);
    var end := End(lo, hi, w);
    if lo + w >= TWO32 {
      WrappedEndSeedsOneCell(lo, end, w);
    } else {
      SeedsAreTheCellsIff(lo, lo + w, requested);
      CellCountIsLargest(lo, lo + w, w, 1);
      CellCountIsLargest(lo, lo + w, w, 2);
      assert CellCount(lo, lo + w, w) == 1;
      assert Cells(lo, w, 1) == [lo];
    }
  }

  lemma WrappedEndSeedsOneCell(lo: uint32, end: uint32, w: nat)
    requires 0 < w <= 4 && lo + w >= TWO32 && end == (lo + w) % TWO32
    ensures Walk(lo, end, w, MAX_CELLS) == [lo]
  {
    WalkOver(end, end, w, MAX_CELLS - 1);
  }

  lemma CountWithinCap(lo: nat, hi: nat, w: nat)
    requires w > 0 && lo <= hi
    ensures CellCount(lo, hi, w) <= MAX_CELLS
  {
  }

  lemma WalkEnds(b: uint32, hi: uint32, w: nat, room: nat)
    requires 0 < w <= 4 && b <= hi && (room > 0 ==> hi < b + w)
    ensures Walk(b, hi, w, room) == [] <==> room == 0 || b + w < TWO32
  {
  }

  // ----- filtering --------------------------------------------------------------

  predicate Keeps(f: Filter, current: uint32, before: uint32) {
    match f.op
    case Eq => f.value.Some? && current == f.value.value
    case Ne => f.value.Some? && current != f.value.value
    case Lt => f.value.Some? && current < f.value.value
    case Gt => f.value.Some? && current > f.value.value
    case Inc => current > before
    case Dec => current < before
    case Changed => current != before
    case Unchanged => current == before
    case Unknown => false
  }

  datatype Candidates = Candidates(addrs: seq<uint32>, prev: seq<uint32>)

  function Values(addrs: seq<uint32>, memory: Snapshot): seq<uint32> {
    seq(|addrs|, i requires 0 <= i < |addrs| => memory(addrs[i]))
  }

  /** What one filter leaves of parallel addresses and earlier values. */
  function Sieve(c: Candidates, f: Filter): (r: Candidates)
    requires |c.addrs| == |c.prev|
    ensures |r.addrs| == |r.prev|
    decreases |c.addrs|
  {
    if c.addrs == [] then c
    else
      var a, rest := c.addrs[0], Sieve(Candidates(c.addrs[1..], c.prev[1..]), f);
      if Keeps(f, f.memory(a), c.prev[0]) then Candidates([a] + rest.addrs, [f.memory(a)] + rest.prev) else rest
  }

  function Search(c: Candidates, filters: seq<Filter>): (r: Candidates)
    requires |c.addrs| == |c.prev|
    ensures |r.addrs| == |r.prev|
    decreases |filters|
  {
    if filters == [] then c else Search(Sieve(c, filters[0]), filters[1..])
  }

  /** Whether the cell at `a` meets every filter, each comparing with the moment of the one before. */
  predicate Passes(a: uint32, before: Snapshot, filters: seq<Filter>)
    decreases |filters|
  {
    filters == [] ||
    (Keeps(filters[0], filters[0].memory(a), before(a)) && Passes(a, filters[0].memory, filters[1..]))
  }

  function Selected(addrs: seq<uint32>, before: Snapshot, filters: seq<Filter>): seq<uint32> {
    if addrs == [] then []
    else (if Passes(addrs[0], before, filters) then [addrs[0]] else []) + Selected(addrs[1..], before, filters)
  }

  function LastMoment(before: Snapshot, filters: seq<Filter>): Snapshot {
    if filters == [] then before else filters[|filters| - 1].memory
  }

  lemma {:induction false} SieveSelects(addrs: seq<uint32>, before: Snapshot, f: Filter)
    ensures var kept := Selected(addrs, before, [f]);
      Sieve(Candidates(addrs, Values(addrs, before)), f) == Candidates(kept, Values(kept, f.memory))
  {
    if addrs != [] {
      var rest := Selected(addrs[1..], before, [f]);
      SieveSelects(addrs[1..], before, f);
      assert Values(addrs, before)[1..] == Values(addrs[1..], before);
      assert [f][1..] == [];
      assert Passes(addrs[0], before, [f]) <==> Keeps(f, f.memory(addrs[0]), before(addrs[0]));
      assert Values([addrs[0]] + rest, f.memory) == [f.memory(addrs[0])] + Values(rest, f.memory);
    }
  }

  lemma OneFilter(a: uint32, before: Snapshot, f: Filter, later: seq<Filter>)
    ensures Passes(a, before, [f] + later) <==> Passes(a, before, [f]) && Passes(a, f.memory, later)
  {
    assert ([f] + later)[1..] == later && [f][1..] == [];
  }

  lemma {:induction false} SelectedTwice(addrs: seq<uint32>, before: Snapshot, f: Filter, later: seq<Filter>)
    ensures Selected(Selected(addrs, before, [f]), f.memory, later) == Selected(addrs, before, [f] + later)
  {
    hide Passes;
    if addrs != [] {
      var a, rest := addrs[0], Selected(addrs[1..], before, [f]);
      OneFilter(a, before, f, later);
      SelectedTwice(addrs[1..], before, f, later);
      if Passes(a, before, [f]) {
        assert ([a] + rest)[1..] == rest;
      } else {
        assert [] + rest == rest;
      }
    }
  }

  lemma {:induction false} SelectedAll(addrs: seq<uint32>, before: Snapshot)
    ensures Selected(addrs, before, []) == addrs
  {
    if addrs != [] {
      SelectedAll(addrs[1..], before);
    }
  }

  /** However many filters were applied, the survivors are exactly the seeds that meet every one of them over
      the whole history, in seed order, and the kept values are those of the last moment. */
  lemma {:induction false} SearchIsExact(addrs: seq<uint32>, before: Snapshot, filters: seq<Filter>)
    ensures var kept := Selected(addrs, before, filters);
      Search(Candidates(addrs, Values(addrs, before)), filters)
      == Candidates(kept, Values(kept, LastMoment(before, filters)))
    decreases |filters|
  {
    if filters == [] {
      SelectedAll(addrs, before);
    } else {
      var f := filters[0];
      var kept := Selected(addrs, before, [f]);
      assert filters == [f] + filters[1..];
      SieveSelects(addrs, before, f);
      SearchIsExact(kept, f.memory, filters[1..]);
      SelectedTwice(addrs, before, f, filters[1..]);
    }
  }

  /** What each operation asks of a cell, given a value, and the comparisons with a value that is missing. */
  lemma FiltersMean(a: uint32, before: Snapshot, memory: Snapshot, v: uint32)
    ensures Passes(a, before, [Filter(Eq, Some(v), memory)]) <==> memory(a) == v
    ensures Passes(a, before, [Filter(Ne, Some(v), memory)]) <==> memory(a) != v
    ensures Passes(a, before, [Filter(Lt, Some(v), memory)]) <==> memory(a) < v
    ensures Passes(a, before, [Filter(Gt, Some(v), memory)]) <==> memory(a) > v
    ensures forall value :: Passes(a, before, [Filter(Inc, value, memory)]) <==> memory(a) > before(a)
    ensures forall value :: Passes(a, before, [Filter(Dec, value, memory)]) <==> memory(a) < before(a)
    ensures forall value :: Passes(a, before, [Filter(Changed, value, memory)]) <==> memory(a) != before(a)
    ensures forall value :: Passes(a, before, [Filter(Unchanged, value, memory)]) <==> memory(a) == before(a)
    ensures forall op :: op in {Eq, Ne, Lt, Gt, Unknown} ==> !Passes(a, before, [Filter(op, None, memory)])
    ensures !Passes(a, before, [Filter(Unknown, Some(v), memory)])
  {
  }

  function MomentBefore(before: Snapshot, filters: seq<Filter>, i: nat): Snapshot
    requires i <= |filters|
  {
    if i == 0 then before else filters[i - 1].memory
  }

  /** Meeting all filters is meeting each one, compared with the moment just before it. */
  lemma {:induction false} PassesEach(a: uint32, before: Snapshot, filters: seq<Filter>)
    ensures Passes(a, before, filters) <==>
            forall i :: 0 <= i < |filters| ==> Passes(a, MomentBefore(before, filters, i), [filters[i]])
    decreases |filters|
  {
    if filters != [] {
      var f, later := filters[0], filters[1..];
      PassesEach(a, f.memory, later);
      assert filters == [f] + later;
      OneFilter(a, before, f, later);
      assert forall i :: 0 <= i < |later| ==>
        later[i] == filters[i + 1] && MomentBefore(f.memory, later, i) == MomentBefore(before, filters, i + 1);
      assert MomentBefore(before, filters, 0) == before;
    }
  }

  /** The selection keeps the cells that pass, each in its place, and no other. */
  lemma {:induction false} SelectedInPlace(a: seq<uint32>, x: uint32, b: seq<uint32>, before: Snapshot,
                                           filters: seq<Filter>)
    ensures Selected(a + [x] + b, before, filters)
            == Selected(a, before, filters)
               + ((if Passes(x, before, filters) then [x] else []) + Selected(b, before, filters))
    decreases |a|
  {
    hide Selected;
    SelectedHead(a + [x] + b, before, filters);
    if a == [] {
      assert ([x] + b)[1..] == b && a + [x] + b == [x] + b;
      NothingSelected(before, filters);
    } else {
      assert (a + [x] + b)[1..] == a[1..] + [x] + b && (a + [x] + b)[0] == a[0];
      SelectedInPlace(a[1..], x, b, before, filters);
      SelectedHead(a, before, filters);
    }
  }

  lemma SelectedHead(addrs: seq<uint32>, before: Snapshot, filters: seq<Filter>)
    requires addrs != []
    ensures Selected(addrs, before, filters)
            == (if Passes(addrs[0], before, filters) then [addrs[0]] else []) + Selected(addrs[1..], before, filters)
  {
    hide Passes;
  }

  lemma NothingSelected(before: Snapshot, filters: seq<Filter>)
    ensures Selected([], before, filters) == []
  {
  }

  lemma NoValues(memory: Snapshot)
    ensures Values([], memory) == []
  {
  }

  lemma OneMoreValue(addrs: seq<uint32>, a: uint32, memory: Snapshot)
    ensures Values(addrs + [a], memory) == Values(addrs, memory) + [memory(a)]
  {
  }

  lemma ValuesAt(addrs: seq<uint32>, memory: Snapshot)
    ensures |Values(addrs, memory)| == |addrs|
    ensures forall k :: 0 <= k < |addrs| ==> Values(addrs, memory)[k] == memory(addrs[k])
  {
  }

  lemma WalkOneMore(taken: seq<uint32>, a: uint32, hi: uint32, w: nat, room: nat)
    requires room > 0 && (a + w) % TWO32 <= hi
    ensures taken + Walk(a, hi, w, room) == taken + [a] + Walk((a + w) % TWO32, hi, w, room - 1)
  {
  }

  lemma WalkOver(a: uint32, hi: uint32, w: nat, room: nat)
    requires room == 0 || (a + w) % TWO32 > hi
    ensures Walk(a, hi, w, room) == []
  {
  }

  // ----- the object ---------------------------------------------------------------

  class RamSearch {
    var seeded: bool
    var addrs: seq<uint32>
    var prev: seq<uint32>

    ghost predicate Valid()
      reads this
    {
      |addrs| == |prev|
    }

    ghost function View(): Candidates
      reads this
    {
      Candidates(addrs, prev)
    }

    constructor ()
      ensures Valid() && !seeded && addrs == []
    {
      seeded, addrs, prev := false, [], [];
    }

    method Reset(lo: uint32, hi: uint32, requested: int, memory: Snapshot)
      modifies this
      ensures Valid() && seeded
      ensures var w := Width(requested);
        addrs == Walk(lo, End(lo, hi, w), w, MAX_CELLS) && prev == Values(addrs, memory)
      ensures forall k :: 0 <= k < |addrs| ==> prev[k] == memory(addrs[k])
    {
      hide Walk, Values, Width, End;
      var w := Width(requested);
      var end := End(lo, hi, w);
      addrs, prev := [], [];
      NoValues(memory);
      var a: uint32, n := lo, 0;
      while (a + w) % TWO32 <= end && n < MAX_CELLS
        invariant n <= MAX_CELLS && prev == Values(addrs, memory)
        invariant Walk(lo, end, w, MAX_CELLS) == addrs + Walk(a, end, w, MAX_CELLS - n)
        decreases MAX_CELLS - n
      {
        WalkOneMore(addrs, a, end, w, MAX_CELLS - n);
        OneMoreValue(addrs, a, memory);
        addrs, prev := addrs + [a], prev + [memory(a)];
        a := (a + w) % TWO32;
        n := n + 1;
      }
      WalkOver(a, end, w, MAX_CELLS - n);
      assert addrs + [] == addrs;
      ValuesAt(addrs, memory);
      seeded := true;
    }

    method Apply(f: Filter) returns (ok: bool)
      requires Valid()
      modifies this
      ensures Valid() && ok == seeded == old(seeded)
      ensures View() == if ok then Sieve(old(View()), f) else old(View())
    {
      if !seeded {
        return false;
      }
      var na, np := [], [];
      for i := 0 to |addrs|
        invariant View() == old(View())
        invariant var rest := Sieve(Candidates(addrs[i..], prev[i..]), f);
          Sieve(old(View()), f) == Candidates(na + rest.addrs, np + rest.prev)
      {
        var current := f.memory(addrs[i]);
        assert addrs[i..][1..] == addrs[i + 1..] && prev[i..][1..] == prev[i + 1..];
        if Keeps(f, current, prev[i]) {
          na, np := na + [addrs[i]], np + [current];
        }
      }
      addrs, prev := na, np;
      ok := true;
    }
  }
}
