/**
Descriptor chains: the bounded walk over a descriptor table that the guest controls.
(VIRTIO 1.1, section 2.6.5.)
 */
module DescriptorChain {
  import opened Wrappers

  /** `chained` and `writeOnly` are the NEXT and WRITE flags. */
  datatype Descriptor = Descriptor(addr: nat, len: nat, chained: bool, writeOnly: bool, next: nat)

  /** Entry `i` of the table as a read of guest memory gives it; None if the read fails. */
  type Table = seq<Option<Descriptor>>

  datatype Chain = Chain(ttl: nat, index: nat, desc: Descriptor) {
    predicate HasNext() { desc.chained && ttl > 1 }
  }

  function CheckedNew(table: Table, size: nat, index: nat): (r: Option<Chain>)
    ensures r.Some? ==> r.value.index == index < size && r.value.ttl == size
    ensures r.Some? ==> index < |table| && table[index] == Some(r.value.desc)
    ensures r.None? <==>
      || index >= size || index >= |table| || table[index].None?
      || (table[index].value.chained && size > 1 && table[index].value.next >= size)
  {
    if index >= size || index >= |table| || table[index].None? then None
    else
      var chain := Chain(size, index, table[index].value);
      if chain.HasNext() && chain.desc.next >= size then None else Some(chain)
  }

  function NextDescriptor(table: Table, size: nat, c: Chain): Option<Chain> {
    if !c.HasNext() then None
    else match CheckedNew(table, size, c.desc.next)
      case None => None
      case Some(d) => Some(d.(ttl := c.ttl - 1))
  }

  /** Everything the iterator over `c` yields. */
  function Walk(table: Table, size: nat, c: Chain): (w: seq<Chain>)
    ensures w != [] && w[0] == c
    decreases c.ttl
  {
    match NextDescriptor(table, size, c)
    case None => [c]
    case Some(d) => [c] + Walk(table, size, d)
  }

  /** The iterator: a cursor that steps to the next descriptor whenever one is taken. */
  class DescIter {
    const table: Table
    const size: nat
    var next: Option<Chain>

    ghost function Remaining(): seq<Chain>
      reads this
    {
      match next
      case None => []
      case Some(c) => Walk(table, size, c)
    }

    constructor (table: Table, size: nat, head: Chain)
      ensures Remaining() == Walk(table, size, head)
      ensures this.table == table && this.size == size
    {
      this.table, this.size, next := table, size, Some(head);
    }

    method Next() returns (r: Option<Chain>)
      modifies this
      ensures old(Remaining()) == [] ==> r == None && Remaining() == []
      ensures old(Remaining()) != [] ==>
        r == Some(old(Remaining())[0]) && Remaining() == old(Remaining())[1..]
    {
      match next
      case None => r := None;
      case Some(current) =>
        next := NextDescriptor(table, size, current);
        r := Some(current);
    }
  }

  /** Draining the iterator collects the walk; it ends for every table, cycles included. */
  method Collect(table: Table, size: nat, head: Chain) returns (all: seq<Chain>)
    ensures all == Walk(table, size, head)
  {
    hide *;
    all := [];
    var it := new DescIter(table, size, head);
    ghost var walk := it.Remaining();
    var item := it.Next();
    while item.Some?
      invariant |all| <= |walk| && all == walk[..|all|]
      invariant if |all| < |walk|
                then item == Some(walk[|all|]) && it.Remaining() == walk[|all| + 1..]
                else item == None
      decreases |walk| - |all|
    {
      all := all + [item.value];
      item := it.Next();
    }
  }

  predicate Follows(w: seq<Chain>, i: nat)
    requires i < |w| - 1
  {
    w[i].desc.chained && w[i + 1].index == w[i].desc.next
  }

  /** At most `ttl` descriptors, each inside the table and each linked from the one before. */
  lemma {:induction false} WalkBounded(table: Table, size: nat, c: Chain)
    requires 1 <= c.ttl && c.index < size && c.index < |table| && table[c.index] == Some(c.desc)
    ensures var w := Walk(table, size, c);
            && |w| <= c.ttl
            && (forall i :: 0 <= i < |w| ==>
                 w[i].index < size && w[i].index < |table| && table[w[i].index] == Some(w[i].desc))
            && (forall i :: 0 <= i < |w| - 1 ==> Follows(w, i))
    decreases c.ttl
  {
    match NextDescriptor(table, size, c)
    case None =>
    case Some(d) =>
      WalkBounded(table, size, d);
      var rest := Walk(table, size, d);
      var w := Walk(table, size, c);
      assert w == [c] + rest;
      forall i | 0 <= i < |w| - 1 ensures Follows(w, i) {
        if i > 0 {
          assert Follows(rest, i - 1);
        }
      }
  }

  /** The walk when the guest rewrites its table between two reads: read `n` sees `tables(n)`. */
  function WalkOver(tables: nat -> Table, n: nat, size: nat, c: Chain): (w: seq<Chain>)
    ensures w != [] && w[0] == c
    decreases c.ttl
  {
    match NextDescriptor(tables(n), size, c)
    case None => [c]
    case Some(d) => [c] + WalkOver(tables, n + 1, size, d)
  }

  /** However the table changes, at most `ttl` descriptors, all inside the table as it was read. */
  lemma {:induction false} WalkOverBounded(tables: nat -> Table, n: nat, size: nat, c: Chain)
    requires 1 <= c.ttl && c.index < size
    ensures var w := WalkOver(tables, n, size, c);
            && |w| <= c.ttl
            && (forall i :: 0 <= i < |w| ==> w[i].index < size)
            && (forall i :: 0 <= i < |w| - 1 ==> Follows(w, i))
            && (forall i :: 1 <= i < |w| ==> ReadAs(tables(n + (i - 1)), w[i]))
    decreases c.ttl
  {
    match NextDescriptor(tables(n), size, c)
    case None =>
    case Some(d) =>
      WalkOverBounded(tables, n + 1, size, d);
      var rest := WalkOver(tables, n + 1, size, d);
      var w := WalkOver(tables, n, size, c);
      assert w == [c] + rest;
      forall i | 0 <= i < |w| - 1 ensures Follows(w, i) {
        if i > 0 {
          assert Follows(rest, i - 1);
        }
      }
      forall i | 1 <= i < |w| ensures ReadAs(tables(n + (i - 1)), w[i]) {
        if i > 1 {
          assert ReadAs(tables(n + 1 + (i - 2)), rest[i - 1]);
        }
      }
  }

  predicate ReadAs(table: Table, c: Chain) {
    c.index < |table| && table[c.index] == Some(c.desc)
  }

  /** A table that stays the same is the walk above. */
  lemma {:induction false} WalkOverConstant(tables: nat -> Table, table: Table, n: nat, size: nat, c: Chain)
    requires forall i: nat :: tables(i) == table
    ensures WalkOver(tables, n, size, c) == Walk(table, size, c)
    decreases c.ttl
  {
    match NextDescriptor(table, size, c)
    case None =>
    case Some(d) => WalkOverConstant(tables, table, n + 1, size, d);
  }

  /** Walking a table from its head never yields more descriptors than the table has. */
  lemma WalkFromHead(table: Table, size: nat, index: nat)
    requires CheckedNew(table, size, index).Some?
    ensures var w := Walk(table, size, CheckedNew(table, size, index).value);
            |w| <= size && forall i :: 0 <= i < |w| ==> w[i].index < size
  {
    WalkBounded(table, size, CheckedNew(table, size, index).value);
  }

  // Completeness

  predicate LinkAt(table: Table, path: seq<nat>, i: nat)
    requires i < |path| - 1
  {
    && path[i] < |table| && table[path[i]].Some?
    && table[path[i]].value.chained && table[path[i]].value.next == path[i + 1]
  }

  predicate Linked(table: Table, size: nat, path: seq<nat>) {
    && (forall i :: 0 <= i < |path| ==>
         path[i] < size && path[i] < |table| && table[path[i]].Some?)
    && (forall i :: 0 <= i < |path| - 1 ==> LinkAt(table, path, i))
  }

  predicate Distinct(path: seq<nat>) {
    forall i, j :: 0 <= i < j < |path| ==> path[i] != path[j]
  }

  /** An acyclic chain that stays in the table and ends at a descriptor without NEXT. */
  predicate IsChain(table: Table, size: nat, path: seq<nat>) {
    path != [] && Linked(table, size, path) && Distinct(path)
    && !table[path[|path| - 1]].value.chained
  }

  function Indices(w: seq<Chain>): seq<nat> {
    seq(|w|, i requires 0 <= i < |w| => w[i].index)
  }

  function Below(n: nat): (s: set<nat>)
    ensures |s| == n && forall x: nat :: x in s <==> x < n
  {
    if n == 0 then {}
    else
      var b := Below(n - 1);
      assert n - 1 !in b;
      b + {n - 1}
  }

  /** Distinct indices below `size` are at most `size` many. */
  lemma {:induction false} Pigeonhole(path: seq<nat>, size: nat)
    requires Distinct(path) && forall i :: 0 <= i < |path| ==> path[i] < size
    ensures |path| <= size
  {
    var values := set i | 0 <= i < |path| :: path[i];
    ValuesOf(path);
    assert values <= Below(size);
    SubsetSize(values, Below(size));
  }

  lemma {:induction false} ValuesOf(path: seq<nat>)
    requires Distinct(path)
    ensures |set i | 0 <= i < |path| :: path[i]| == |path|
  {
    if path != [] {
      var n := |path| - 1;
      ValuesOf(path[..n]);
      var before := set i | 0 <= i < n :: path[..n][i];
      assert (set i | 0 <= i < |path| :: path[i]) == before + {path[n]};
    }
  }

  lemma {:induction false} SubsetSize(a: set<nat>, b: set<nat>)
    requires a <= b
    ensures |a| <= |b|
  {
    if a != {} {
      var x :| x in a;
      SubsetSize(a - {x}, b - {x});
    }
  }

  lemma {:induction false} WalkFollows(table: Table, size: nat, c: Chain, path: seq<nat>)
    requires IsChain(table, size, path)
    requires c.index == path[0] && Some(c.desc) == table[path[0]] && |path| <= c.ttl
    ensures Indices(Walk(table, size, c)) == path
    decreases |path|
  {
    if |path| > 1 {
      assert LinkAt(table, path, 0);
      if |path| > 2 {
        assert LinkAt(table, path, 1);
      }
      assert CheckedNew(table, size, path[1]).Some?;
      var d := NextDescriptor(table, size, c).value;
      var rest := path[1..];
      forall i | 0 <= i < |rest| - 1 ensures LinkAt(table, rest, i) {
        assert LinkAt(table, path, i + 1);
      }
      WalkFollows(table, size, d, rest);
      assert Walk(table, size, c) == [c] + Walk(table, size, d);
      assert path == [path[0]] + rest;
    }
  }

  /** An acyclic in-range chain is walked to its end: the ttl never cuts it short. */
  lemma WalkComplete(table: Table, size: nat, path: seq<nat>)
    requires IsChain(table, size, path)
    ensures CheckedNew(table, size, path[0]).Some?
    ensures Indices(Walk(table, size, CheckedNew(table, size, path[0]).value)) == path
  {
    if |path| > 1 {
      assert LinkAt(table, path, 0);
    }
    Pigeonhole(path, size);
    WalkFollows(table, size, CheckedNew(table, size, path[0]).value, path);
  }

  predicate Ends(w: seq<Chain>) {
    w != [] && !w[|w| - 1].desc.chained
  }

  lemma {:induction false} RepeatShifts(table: Table, path: seq<nat>, i: nat, j: nat, k: nat)
    requires Linked(table, |table|, path)
    requires i < j && j + k < |path| && path[i] == path[j]
    ensures path[i + k] == path[j + k]
  {
    if k > 0 {
      RepeatShifts(table, path, i, j, k - 1);
      assert LinkAt(table, path, i + k - 1) && LinkAt(table, path, j + k - 1);
    }
  }

  /** A walk that reaches an end has visited no descriptor twice. */
  lemma EndedIsDistinct(table: Table, path: seq<nat>)
    requires path != [] && Linked(table, |table|, path) && !table[path[|path| - 1]].value.chained
    ensures Distinct(path)
  {
    forall i, j | 0 <= i < j < |path| ensures path[i] != path[j] {
      var k := |path| - 1 - j;
      assert LinkAt(table, path, i + k);
      if path[i] == path[j] {
        RepeatShifts(table, path, i, j, k);
      }
    }
  }

  /** The walk from a head reaches an end exactly when the head starts an acyclic chain. */
  lemma EndsExactly(table: Table, size: nat, index: nat)
    requires size <= |table| && CheckedNew(table, size, index).Some?
    ensures var w := Walk(table, size, CheckedNew(table, size, index).value);
            Ends(w) <==> exists path :: IsChain(table, size, path) && path[0] == index
  {
    var c := CheckedNew(table, size, index).value;
    var w := Walk(table, size, c);
    WalkBounded(table, size, c);
    if Ends(w) {
      EndedIsChain(table, size, index);
    }
    if path :| IsChain(table, size, path) && path[0] == index {
      WalkComplete(table, size, path);
      assert Indices(w)[|w| - 1] == path[|path| - 1];
    }
  }

  lemma EndedIsChain(table: Table, size: nat, index: nat)
    requires size <= |table| && CheckedNew(table, size, index).Some?
    requires Ends(Walk(table, size, CheckedNew(table, size, index).value))
    ensures var path := Indices(Walk(table, size, CheckedNew(table, size, index).value));
            IsChain(table, size, path) && path[0] == index
  {
    var w := Walk(table, size, CheckedNew(table, size, index).value);
    WalkBounded(table, size, CheckedNew(table, size, index).value);
    hide Walk;
    var path := Indices(w);
    forall i | 0 <= i < |path| - 1 ensures LinkAt(table, path, i) {
      assert Follows(w, i);
    }
    EndedIsDistinct(table, path);
  }

  /** A walk that does not end was stopped by the ttl or by a link it may not follow. */
  lemma {:induction false} WhyStopped(table: Table, size: nat, c: Chain)
    requires c.ttl >= 1
    ensures var w := Walk(table, size, c);
            var last := w[|w| - 1];
            || Ends(w)
            || |w| == c.ttl
            || CheckedNew(table, size, last.desc.next).None?
    decreases c.ttl
  {
    match NextDescriptor(table, size, c)
    case None =>
    case Some(d) => WhyStopped(table, size, d);
  }

  // Readable prefix and writable suffix

  function Readable(w: seq<Chain>): (r: seq<Chain>)
    ensures r <= w
    ensures forall c :: c in r ==> !c.desc.writeOnly
    ensures |r| < |w| ==> w[|r|].desc.writeOnly
  {
    if w == [] || w[0].desc.writeOnly then [] else [w[0]] + Readable(w[1..])
  }

  function Writable(w: seq<Chain>): (r: seq<Chain>)
    ensures r != [] ==> r[0].desc.writeOnly
  {
    if w == [] || w[0].desc.writeOnly then w else Writable(w[1..])
  }

  /** The two iterators split every chain without loss, overlap or reordering. */
  lemma {:induction false} ReadableThenWritable(w: seq<Chain>)
    ensures Readable(w) + Writable(w) == w
  {
    if w != [] && !w[0].desc.writeOnly {
      ReadableThenWritable(w[1..]);
    }
  }
}
