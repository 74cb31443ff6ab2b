/**
 The member table of a JSON object: open addressing with linear probing,
 growth with rehash, swap-with-last removal and backward-shift deletion.

 `cells` maps a probe position to an item index, `cellIxs` maps an item index
 back to its position. The lemmas work on those arrays as sequences; the class
 changes the arrays in place.
 */
module JsonTable {
  import opened Arithmetic
  import opened Slices
  import opened Bytes

  type Key = Bytes

  const EMPTY: int := -1              // OBJECT_INVALID_IX
  const STARTING_CAPACITY: nat := 16
  const WORD: nat := 0x1_0000_0000_0000_0000

  // ---- Hashing and masking ------------------------------------------------

  /** djb2 over the bytes before the first NUL, modulo the word size. */
  function HashFrom(s: Key, h: nat): nat {
    if s == [] || s[0] == 0 then h else HashFrom(s[1..], (h * 33 + s[0] as nat) % WORD)
  }

  function Hash(s: Key): nat { HashFrom(s, 5381) }

  method HashString(s: Key) returns (hash: nat)
    ensures hash == Hash(s)
  {
    hash := 5381;
    var i := 0;
    while i < |s|
      invariant 0 <= i <= |s|
      invariant HashFrom(s[i..], hash) == Hash(s)
    {
      var c := s[i];
      if c == 0 {
        break;
      }
      hash := (hash * 33 + c as nat) % WORD;
      i := i + 1;
    }
  }

  /** Bitwise AND of two naturals. */
  function BitAnd(a: nat, b: nat): nat {
    if a == 0 || b == 0 then 0 else (a % 2) * (b % 2) + 2 * BitAnd(a / 2, b / 2)
  }

  predicate PowerOfTwo(n: nat) {
    n == 1 || (n > 1 && n % 2 == 0 && PowerOfTwo(n / 2))
  }

  /** Masking with capacity - 1 is reduction modulo the capacity. */
  lemma {:induction false} MaskIsModulo(a: nat, n: nat)
    requires PowerOfTwo(n)
    ensures BitAnd(a, n - 1) == a % n
  {
    if n > 1 {
      MaskIsModulo(a / 2, n / 2);
      assert (n - 1) % 2 == 1 && (n - 1) / 2 == n / 2 - 1;
      ModuloByHalves(a, n / 2);
    }
  }

  lemma ModuloByHalves(a: nat, m: nat)
    requires m > 0
    ensures a % (2 * m) == a % 2 + 2 * ((a / 2) % m)
  {
    var q, r := (a / 2) / m, (a / 2) % m;
    assert a == (2 * m) * q + (2 * r + a % 2);
    DivisionIsUnique(a, 2 * m, q, 2 * r + a % 2);
  }

  function Home(hash: nat, capacity: nat): nat
    requires capacity > 0
  {
    hash % capacity
  }

  // ---- The probe structure on sequences -----------------------------------

  /** c lies on the cyclic walk that starts at h and stops just before p. */
  predicate InArc(h: int, c: int, p: int) {
    if h <= p then h <= c < p else c >= h || c < p
  }

  /** `cells` and `ixs` are mutual inverses on the items. */
  predicate Linked(cells: seq<int>, ixs: seq<int>) {
    && (forall t :: 0 <= t < |ixs| ==> 0 <= ixs[t] < |cells| && cells[ixs[t]] == t)
    && (forall c :: 0 <= c < |cells| ==> cells[c] == EMPTY || (0 <= cells[c] < |ixs| && ixs[cells[c]] == c))
  }

  predicate HomesIn(homes: seq<int>, ixs: seq<int>, capacity: nat) {
    |homes| == |ixs| && forall t :: 0 <= t < |homes| ==> 0 <= homes[t] < capacity
  }

  /** The walk from every item's home cell to its own cell meets no empty cell. */
  predicate GapFree(cells: seq<int>, ixs: seq<int>, homes: seq<int>)
    requires |homes| == |ixs|
  {
    forall t, c :: 0 <= t < |ixs| && 0 <= c < |cells| && InArc(homes[t], c, ixs[t]) ==> cells[c] != EMPTY
  }

  /** Fewer items than cells leave an empty cell. */
  lemma EmptyCellExists(cells: seq<int>, ixs: seq<int>) returns (e: nat)
    requires Linked(cells, ixs) && |ixs| < |cells|
    ensures e < |cells| && cells[e] == EMPTY
  {
    if forall c :: 0 <= c < |cells| ==> cells[c] != EMPTY {
      DistinctBelowBound(cells, |ixs|);
      assert false;
    }
    e :| 0 <= e < |cells| && cells[e] == EMPTY;
  }

  /** Pigeonhole: distinct numbers below a bound are no more than the bound. */
  lemma {:induction false} DistinctBelowBound(s: seq<int>, bound: nat)
    requires forall i :: 0 <= i < |s| ==> 0 <= s[i] < bound
    requires forall i, j :: 0 <= i < j < |s| ==> s[i] != s[j]
    ensures |s| <= bound
  {
    if |s| > 0 {
      var last := s[|s| - 1];
      if k :| 0 <= k < |s| && s[k] == bound - 1 {
        var t := s[..k] + s[k + 1..];
        forall i | 0 <= i < |t| ensures t[i] == s[if i < k then i else i + 1] {}
        DistinctBelowBound(t, bound - 1);
      } else {
        assert 0 <= last < bound;
        DistinctBelowBound(s, bound - 1);
      }
    }
  }

  /** A probe that reached an empty cell has passed the cell of every item with that home. */
  lemma ProbeStopsPastItem(cells: seq<int>, ixs: seq<int>, homes: seq<int>, t: nat, e: nat)
    requires Linked(cells, ixs) && HomesIn(homes, ixs, |cells|) && GapFree(cells, ixs, homes)
    requires t < |ixs| && e < |cells| && cells[e] == EMPTY
    ensures InArc(homes[t], ixs[t], e)
  {
    assert !InArc(homes[t], e, ixs[t]);
  }

  /** Storing a new item in the first empty cell of its own walk keeps the structure. */
  lemma InsertKeeps(cells: seq<int>, ixs: seq<int>, homes: seq<int>, home: int, e: nat)
    requires Linked(cells, ixs) && HomesIn(homes, ixs, |cells|) && GapFree(cells, ixs, homes)
    requires 0 <= home < |cells| && e < |cells| && cells[e] == EMPTY
    requires forall c :: 0 <= c < |cells| && InArc(home, c, e) ==> cells[c] != EMPTY
    ensures Linked(cells[e := |ixs|], ixs + [e])
    ensures GapFree(cells[e := |ixs|], ixs + [e], homes + [home])
  {
    var cells', ixs', homes' := cells[e := |ixs|], ixs + [e], homes + [home];
    forall t, c | 0 <= t < |ixs'| && 0 <= c < |cells'| && InArc(homes'[t], c, ixs'[t])
      ensures cells'[c] != EMPTY
    {
      if t < |ixs| {
        assert InArc(homes[t], c, ixs[t]);
      } else {
        assert InArc(home, c, e);
      }
    }
  }

  // ---- Backward-shift deletion --------------------------------------------

  /**
   The state inside the shift loop, with the open cell `hole` read as empty and
   the positions after it up to `j` already examined: the only gap on any item's
   walk is the hole, and no examined item has it on its walk.
   */
  predicate Shifting(cells: seq<int>, ixs: seq<int>, homes: seq<int>, hole: int, j: int)
    requires |homes| == |ixs|
  {
    && 0 <= hole < |cells| && 0 <= j < |cells|
    && cells[hole] == EMPTY
    && Linked(cells, ixs)
    && (forall t, c :: 0 <= t < |ixs| && 0 <= c < |cells| && InArc(homes[t], c, ixs[t]) && cells[c] == EMPTY
          ==> c == hole && !Examined(hole, ixs[t], j))
  }

  predicate Examined(hole: int, p: int, j: int) { InArc(hole, p, j) || p == j }

  function Next(j: int, capacity: int): int {
    if j + 1 == capacity then 0 else j + 1
  }

  /** The guard under which the shift loop moves the item at j into the hole at i. */
  predicate MustMove(i: int, j: int, k: int) {
    (j > i && (k <= i || k > j)) || (j < i && (k <= i && k > j))
  }

  lemma ShiftMoves(cells: seq<int>, ixs: seq<int>, homes: seq<int>, hole: int, j: int)
    requires HomesIn(homes, ixs, |cells|) && Shifting(cells, ixs, homes, hole, j)
    requires var j' := Next(j, |cells|); j' != hole && cells[j'] != EMPTY && MustMove(hole, j', homes[cells[j']])
    ensures var j' := Next(j, |cells|);
            var m := cells[j'];
            Shifting(cells[hole := m][j' := EMPTY], ixs[m := hole], homes, j', j')
  {
    var j' := Next(j, |cells|);
    var m := cells[j'];
    var cells', ixs' := cells[hole := m][j' := EMPTY], ixs[m := hole];
    forall t, c | 0 <= t < |ixs'| && 0 <= c < |cells'| && InArc(homes[t], c, ixs'[t]) && cells'[c] == EMPTY
      ensures c == j' && !Examined(j', ixs'[t], j')
    {
      if t == m {
        assert InArc(homes[t], c, ixs[t]);
      } else {
        assert InArc(homes[t], c, ixs[t]);
      }
    }
  }

  lemma ShiftSkips(cells: seq<int>, ixs: seq<int>, homes: seq<int>, hole: int, j: int)
    requires HomesIn(homes, ixs, |cells|) && Shifting(cells, ixs, homes, hole, j)
    requires var j' := Next(j, |cells|); j' != hole && cells[j'] != EMPTY && !MustMove(hole, j', homes[cells[j']])
    ensures Shifting(cells, ixs, homes, hole, Next(j, |cells|))
  {
  }

  lemma ShiftStops(cells: seq<int>, ixs: seq<int>, homes: seq<int>, hole: int, j: int)
    requires HomesIn(homes, ixs, |cells|) && Shifting(cells, ixs, homes, hole, j)
    requires var j' := Next(j, |cells|); j' != hole && cells[j'] == EMPTY
    ensures GapFree(cells, ixs, homes)
  {
    var j' := Next(j, |cells|);
    forall t, c | 0 <= t < |ixs| && 0 <= c < |cells| && InArc(homes[t], c, ixs[t])
      ensures cells[c] != EMPTY
    {
      if cells[c] == EMPTY {
        assert InArc(homes[t], j', ixs[t]);
      }
    }
  }

  /** Dropping an item by moving the last one into its slot opens a hole at its cell. */
  lemma SwapOpensHole(cells: seq<int>, ixs: seq<int>, homes: seq<int>, cell: nat)
    requires Linked(cells, ixs) && HomesIn(homes, ixs, |cells|) && GapFree(cells, ixs, homes)
    requires cell < |cells| && cells[cell] != EMPTY
    ensures var item, last := cells[cell], |ixs| - 1;
            var relinked := if item < last then cells[ixs[last] := item] else cells;
            Shifting(relinked[cell := EMPTY], SwapRemove(ixs, item), SwapRemove(homes, item), cell, cell)
  {
    var item, last := cells[cell], |ixs| - 1;
    var cells' := (if item < last then cells[ixs[last] := item] else cells)[cell := EMPTY];
    var ixs', homes' := SwapRemove(ixs, item), SwapRemove(homes, item);
    forall t, c | 0 <= t < |ixs'| && 0 <= c < |cells'| && InArc(homes'[t], c, ixs'[t]) && cells'[c] == EMPTY
      ensures c == cell && !Examined(cell, ixs'[t], cell)
    {
      var t0 := if t == item then last else t;
      assert InArc(homes[t0], c, ixs[t0]);
    }
  }

  // ---- The table ----------------------------------------------------------

  function Homes(hashes: seq<nat>, capacity: nat): (homes: seq<int>)
    requires capacity > 0
    ensures |homes| == |hashes|
  {
    seq(|hashes|, t requires 0 <= t < |hashes| => Home(hashes[t], capacity))
  }

  predicate Distinct(keys: seq<Key>) {
    forall s, t :: 0 <= s < t < |keys| ==> keys[s] != keys[t]
  }

  predicate Hashed(keys: seq<Key>, hashes: seq<nat>) {
    |hashes| == |keys| && forall t :: 0 <= t < |keys| ==> hashes[t] == Hash(keys[t])
  }

  predicate WellFormed(cells: seq<int>, hashes: seq<nat>, keys: seq<Key>, ixs: seq<int>) {
    && |ixs| == |keys|
    && Hashed(keys, hashes)
    && Distinct(keys)
    && Linked(cells, ixs)
    && (|cells| > 0 ==> GapFree(cells, ixs, Homes(hashes, |cells|)))
  }

  /** The items with index ix replaced by the last one, which is dropped. */
  function SwapRemove<T>(s: seq<T>, ix: nat): seq<T>
    requires ix < |s|
  {
    s[ix := s[|s| - 1]][..|s| - 1]
  }

  /** The plain map a list of keys and values stands for. */
  function AsMap<V>(keys: seq<Key>, vals: seq<V>): (m: map<Key, V>)
    requires |keys| == |vals|
    ensures forall k :: k in m <==> k in keys
  {
    if keys == [] then map[]
    else
      var n := |keys| - 1;
      assert keys == keys[..n] + [keys[n]];
      AsMap(keys[..n], vals[..n])[keys[n] := vals[n]]
  }

  /** Every item of a list with distinct keys can be read back from its map. */
  lemma {:induction false} AsMapAt<V>(keys: seq<Key>, vals: seq<V>, t: nat)
    requires |keys| == |vals| && Distinct(keys) && t < |keys|
    ensures AsMap(keys, vals)[keys[t]] == vals[t]
  {
    var n := |keys| - 1;
    var front := AsMap(keys[..n], vals[..n]);
    assert AsMap(keys, vals) == front[keys[n] := vals[n]];
    if t < n {
      AsMapAt(keys[..n], vals[..n], t);
      hide AsMap;
      assert keys[..n][t] == keys[t] != keys[n] && vals[..n][t] == vals[t];
    }
  }

  /** Two lists with distinct keys and the same items, in any order, are the same map. */
  lemma AsMapExtensional<V>(keys: seq<Key>, vals: seq<V>, m: map<Key, V>)
    requires |keys| == |vals| && Distinct(keys)
    requires forall k :: k in m <==> k in keys
    requires forall t :: 0 <= t < |keys| ==> m[keys[t]] == vals[t]
    ensures AsMap(keys, vals) == m
  {
    forall k | k in m ensures AsMap(keys, vals)[k] == m[k] {
      var t :| 0 <= t < |keys| && keys[t] == k;
      AsMapAt(keys, vals, t);
    }
  }

  lemma NoItems<V>()
    ensures AsMap<V>([], []) == map[]
  {
  }

  lemma AsMapAppend<V>(keys: seq<Key>, vals: seq<V>, k: Key, v: V)
    requires |keys| == |vals|
    ensures AsMap(keys + [k], vals + [v]) == AsMap(keys, vals)[k := v]
  {
    assert (keys + [k])[..|keys|] == keys && (vals + [v])[..|vals|] == vals;
  }

  lemma AsMapUpdate<V>(keys: seq<Key>, vals: seq<V>, ix: nat, v: V)
    requires |keys| == |vals| && Distinct(keys) && ix < |keys|
    ensures AsMap(keys, vals[ix := v]) == AsMap(keys, vals)[keys[ix] := v]
  {
    forall t | 0 <= t < |keys| ensures AsMap(keys, vals)[keys[t]] == vals[t] { AsMapAt(keys, vals, t); }
    AsMapExtensional(keys, vals[ix := v], AsMap(keys, vals)[keys[ix] := v]);
  }

  lemma AsMapSwapRemove<V>(keys: seq<Key>, vals: seq<V>, ix: nat)
    requires |keys| == |vals| && Distinct(keys) && ix < |keys|
    ensures Distinct(SwapRemove(keys, ix))
    ensures AsMap(SwapRemove(keys, ix), SwapRemove(vals, ix)) == AsMap(keys, vals) - {keys[ix]}
  {
    hide AsMap;
    var ks, vs := SwapRemove(keys, ix), SwapRemove(vals, ix);
    var m := AsMap(keys, vals) - {keys[ix]};
    SwapRemoveKeys(keys, ix);
    forall t | 0 <= t < |ks| ensures m[ks[t]] == vs[t] {
      AsMapAt(keys, vals, if t == ix then |keys| - 1 else t);
    }
    AsMapExtensional(ks, vs, m);
  }

  /** Swap-with-last drops exactly its own key from a list of distinct keys. */
  lemma SwapRemoveKeys(keys: seq<Key>, ix: nat)
    requires Distinct(keys) && ix < |keys|
    ensures Distinct(SwapRemove(keys, ix))
    ensures forall k :: k in SwapRemove(keys, ix) <==> k in keys && k != keys[ix]
  {
    var ks := SwapRemove(keys, ix);
    forall k | k in keys && k != keys[ix] ensures k in ks {
      var t :| 0 <= t < |keys| && keys[t] == k;
      assert ks[if t == |keys| - 1 then ix else t] == k;
    }
  }

  /** The cell that is d steps after home, for d below the capacity. */
  function ProbeAt(home: int, d: int, capacity: int): int {
    if home + d < capacity then home + d else home + d - capacity
  }

  lemma ProbeAtIsMasked(home: nat, d: nat, capacity: nat)
    requires PowerOfTwo(capacity) && home < capacity && d < capacity
    ensures BitAnd(home + d, capacity - 1) == ProbeAt(home, d, capacity)
  {
    MaskIsModulo(home + d, capacity);
    DivisionIsUnique(home + d, capacity, if home + d < capacity then 0 else 1, ProbeAt(home, d, capacity));
  }

  lemma NextIsMasked(j: nat, capacity: nat)
    requires PowerOfTwo(capacity) && j < capacity
    ensures BitAnd(j + 1, capacity - 1) == Next(j, capacity)
  {
    MaskIsModulo(j + 1, capacity);
    DivisionIsUnique(j + 1, capacity, if j + 1 == capacity then 1 else 0, Next(j, capacity));
  }

  /** The cell c holds an item whose key is not the one searched for. */
  predicate Passed(cells: seq<int>, keys: seq<Key>, key: Key, c: int) {
    0 <= c < |cells| && 0 <= cells[c] < |keys| && keys[cells[c]] != key
  }

  /** The first `steps` cells from `home` are all left behind by the search. */
  predicate Walked(cells: seq<int>, keys: seq<Key>, key: Key, home: int, steps: int) {
    forall d :: 0 <= d < steps ==> Passed(cells, keys, key, ProbeAt(home, d, |cells|))
  }

  lemma WalkedArc(cells: seq<int>, keys: seq<Key>, key: Key, home: int, steps: int, c: int)
    requires 0 <= home < |cells| && 0 <= steps < |cells| && 0 <= c < |cells|
    requires Walked(cells, keys, key, home, steps) && InArc(home, c, ProbeAt(home, steps, |cells|))
    ensures Passed(cells, keys, key, c)
  {
    var d := if c >= home then c - home else c - home + |cells|;
    assert ProbeAt(home, d, |cells|) == c;
  }

  /** A search as long as the table has passed every cell. */
  lemma WalkedAll(cells: seq<int>, keys: seq<Key>, key: Key, home: int, c: int)
    requires 0 <= home < |cells| && 0 <= c < |cells| && Walked(cells, keys, key, home, |cells|)
    ensures Passed(cells, keys, key, c)
  {
    assert ProbeAt(home, if c >= home then c - home else c - home + |cells|, |cells|) == c;
  }

  /** A search that meets an empty cell has looked at every item that could match. */
  lemma SearchMisses(cells: seq<int>, keys: seq<Key>, hashes: seq<nat>, ixs: seq<int>, key: Key, steps: int)
    requires |cells| > 0 && |ixs| == |keys| && Hashed(keys, hashes) && Linked(cells, ixs)
    requires GapFree(cells, ixs, Homes(hashes, |cells|))
    requires 0 <= steps < |cells|
    requires var home := Home(Hash(key), |cells|);
             Walked(cells, keys, key, home, steps) && cells[ProbeAt(home, steps, |cells|)] == EMPTY
    ensures key !in keys
    ensures var home := Home(Hash(key), |cells|);
            forall c :: 0 <= c < |cells| && InArc(home, c, ProbeAt(home, steps, |cells|)) ==> cells[c] != EMPTY
  {
    var home := Home(Hash(key), |cells|);
    var stop := ProbeAt(home, steps, |cells|);
    forall c | 0 <= c < |cells| && InArc(home, c, stop) ensures Passed(cells, keys, key, c) {
      WalkedArc(cells, keys, key, home, steps, c);
    }
    forall t | 0 <= t < |keys| ensures keys[t] != key {
      if keys[t] == key {
        ProbeStopsPastItem(cells, ixs, Homes(hashes, |cells|), t, stop);
      }
    }
  }

  /** The list after overwriting the value of a key that is there. */
  ghost predicate Overwrites<V>(keys: seq<Key>, before: seq<V>, after: seq<V>, key: Key, value: V)
    requires |keys| == |before|
  {
    exists ix :: 0 <= ix < |keys| && keys[ix] == key && after == before[ix := value]
  }

  /** The list after removing a key that is there. */
  ghost predicate Removes<V>(keys: seq<Key>, vals: seq<V>, keys': seq<Key>, vals': seq<V>, key: Key)
    requires |keys| == |vals|
  {
    exists ix :: 0 <= ix < |keys| && keys[ix] == key && keys' == SwapRemove(keys, ix) && vals' == SwapRemove(vals, ix)
  }

  lemma OverwritesInMap<V>(keys: seq<Key>, before: seq<V>, after: seq<V>, key: Key, value: V)
    requires |keys| == |before| && Distinct(keys) && Overwrites(keys, before, after, key, value)
    ensures |after| == |keys| && AsMap(keys, after) == AsMap(keys, before)[key := value]
  {
    hide AsMap;
    var ix :| 0 <= ix < |keys| && keys[ix] == key && after == before[ix := value];
    AsMapUpdate(keys, before, ix, value);
  }

  lemma RemovesFromMap<V>(keys: seq<Key>, vals: seq<V>, keys': seq<Key>, vals': seq<V>, key: Key)
    requires |keys| == |vals| && Distinct(keys) && Removes(keys, vals, keys', vals', key)
    ensures |keys'| == |vals'| && AsMap(keys', vals') == AsMap(keys, vals) - {key}
  {
    hide AsMap;
    var ix :|
      && 0 <= ix < |keys| && keys[ix] == key
      && keys' == SwapRemove(keys, ix) && vals' == SwapRemove(vals, ix);
    AsMapSwapRemove(keys, vals, ix);
  }

  lemma HomesSwap(hashes: seq<nat>, ix: nat, capacity: nat)
    requires ix < |hashes| && capacity > 0
    ensures Homes(SwapRemove(hashes, ix), capacity) == SwapRemove(Homes(hashes, capacity), ix)
  {
  }

  lemma SwapRemoveSlot<T>(s: seq<T>, ix: nat)
    requires ix < |s|
    ensures |SwapRemove(s, ix)| == |s| - 1 && (ix < |s| - 1 ==> SwapRemove(s, ix)[ix] == s[|s| - 1])
  {
  }

  lemma SwapRemoveKeeps(keys: seq<Key>, hashes: seq<nat>, ix: nat)
    requires Distinct(keys) && Hashed(keys, hashes) && ix < |keys|
    ensures Distinct(SwapRemove(keys, ix)) && Hashed(SwapRemove(keys, ix), SwapRemove(hashes, ix))
  {
  }

  /** Moves the last of the first n entries into entry ix. */
  method MoveLast<T>(a: array<T>, ix: nat, n: nat)
    requires ix < n <= a.Length
    modifies a
    ensures a[..n - 1] == SwapRemove(old(a[..n]), ix)
  {
    if ix < n - 1 {
      a[ix] := a[n - 1];
    }
  }

  class ObjectTable<V(0)> {
    var cells: array<int>
    var hashes: array<nat>
    var names: array<Key>
    var values: array<V>
    var cellIxs: array<int>
    var count: nat
    var itemCapacity: nat
    var cellCapacity: nat

    ghost function Repr(): set<object>
      reads this
    {
      {this, cells, hashes, names, values, cellIxs}
    }

    /** Buffer sizes, and buffers that do not overlap. */
    ghost predicate Shaped()
      reads this
    {
      && cells.Length == cellCapacity
      && hashes.Length == names.Length == values.Length == cellIxs.Length == itemCapacity
      && itemCapacity == cellCapacity * 7 / 10
      && count <= itemCapacity
      && (cellCapacity == 0 || (cellCapacity >= STARTING_CAPACITY && PowerOfTwo(cellCapacity)))
      && cells != cellIxs && cells as object != hashes && cellIxs as object != hashes
      && names as object != values
      && names as object !in {cells as object, cellIxs, hashes}
      && values as object !in {cells as object, cellIxs, hashes}
    }

    ghost predicate Valid()
      reads this, cells, hashes, names, cellIxs
    {
      && Shaped()
      && WellFormed(cells[..], hashes[..count], names[..count], cellIxs[..count])
    }

    ghost function Keys(): seq<Key>
      reads this, names
      requires Shaped()
    {
      names[..count]
    }

    ghost function Vals(): seq<V>
      reads this, values
      requires Shaped()
    {
      values[..count]
    }

    ghost function Contents(): map<Key, V>
      reads this, names, values
      requires Shaped()
    {
      AsMap(Keys(), Vals())
    }

    /** json_object_init: an empty table with the given number of cells. */
    constructor (capacity: nat)
      requires capacity == 0 || (capacity >= STARTING_CAPACITY && PowerOfTwo(capacity))
      ensures Valid() && fresh(Repr()) && count == 0 && cellCapacity == capacity
    {
      count := 0;
      cellCapacity := capacity;
      itemCapacity := capacity * 7 / 10;
      cells := new int[capacity](_ => EMPTY);
      names := new Key[capacity * 7 / 10];
      values := new V[capacity * 7 / 10];
      cellIxs := new int[capacity * 7 / 10];
      hashes := new nat[capacity * 7 / 10];
    }

    /** json_object_get_cell_ix: the cell of the key, or the empty cell that ends its probe. */
    method GetCellIx(key: Key, hash: nat) returns (ix: int, found: bool)
      requires Valid() && hash == Hash(key)
      ensures found <==> key in Keys()
      ensures cellCapacity == 0 ==> ix == EMPTY
      ensures cellCapacity > 0 ==> 0 <= ix < cellCapacity
      ensures found ==> 0 <= cells[ix] < count && names[cells[ix]] == key
      ensures !found && cellCapacity > 0 ==> EndsProbe(ix, hash)
    {
      if cellCapacity == 0 {
        return EMPTY, false;
      }
      var cellIx := BitAnd(hash, cellCapacity - 1);
      MaskIsModulo(hash, cellCapacity);
      ghost var cs, ks := cells[..], Keys();
      var i := 0;
      while i < cellCapacity
        invariant 0 <= i <= cellCapacity
        invariant Walked(cs, ks, key, cellIx, i)
      {
        ix := BitAnd(cellIx + i, cellCapacity - 1);
        ProbeAtIsMasked(cellIx, i, cellCapacity);
        var cell := cells[ix];
        assert cell == cs[ix];
        if cell == EMPTY {
          SearchMisses(cs, ks, hashes[..count], cellIxs[..count], key, i);
          return ix, false;
        }
        assert names[cell] == ks[cell] && hashes[cell] == hashes[..count][cell];
        if hash == hashes[cell] && names[cell] == key {
          return ix, true;
        }
        assert Passed(cs, ks, key, ix);
        i := i + 1;
      }
      ghost var e := EmptyCellExists(cs, cellIxs[..count]);
      WalkedAll(cs, ks, key, cellIx, e);
      assert false;
      ix, found := EMPTY, false;
    }

    /** The empty cell at which a probe for the hash stops. */
    ghost predicate EndsProbe(ix: int, hash: nat)
      reads this, cells
      requires Shaped() && cellCapacity > 0
    {
      && 0 <= ix < cellCapacity && cells[ix] == EMPTY
      && forall c :: 0 <= c < cellCapacity && InArc(Home(hash, cellCapacity), c, ix) ==> cells[c] != EMPTY
    }

    /** Stores a new item at the end of its probe; shared by add and set. */
    method Append(name: Key, hash: nat, value: V, cellIx: int)
      requires Valid() && count < itemCapacity
      requires name !in Keys() && hash == Hash(name) && EndsProbe(cellIx, hash)
      modifies this`count, cells, hashes, names, values, cellIxs
      ensures Valid() && Keys() == old(Keys()) + [name] && Vals() == old(Vals()) + [value]
    {
      ghost var cs, ixs, hs := cells[..], cellIxs[..count], hashes[..count];
      InsertKeeps(cs, ixs, Homes(hs, cellCapacity), Home(hash, cellCapacity), cellIx);
      names[count] := name;
      cells[cellIx] := count;
      values[count] := value;
      cellIxs[count] := cellIx;
      hashes[count] := hash;
      count := count + 1;
      assert cells[..] == cs[cellIx := |ixs|];
      assert cellIxs[..count] == ixs + [cellIx];
      assert hashes[..count] == hs + [hash];
      assert Homes(hashes[..count], cellCapacity) == Homes(hs, cellCapacity) + [Home(hash, cellCapacity)];
    }

    /** The copying loop of json_object_grow_and_rehash. */
    method RehashInto(bigger: ObjectTable<V>)
      requires Valid() && bigger.Valid() && Repr() !! bigger.Repr()
      requires bigger.count == 0 && count < bigger.itemCapacity
      modifies bigger.Repr()
      ensures bigger.Valid() && bigger.Repr() == old(bigger.Repr()) && bigger.itemCapacity == old(bigger.itemCapacity)
      ensures bigger.Keys() == Keys() && bigger.Vals() == Vals()
      decreases 1, 0
    {
      assert Distinct(Keys());
      hide WellFormed, Linked, GapFree, PowerOfTwo;
      var i := 0;
      while i < count
        invariant 0 <= i <= count
        invariant bigger.Valid() && bigger.Repr() == old(bigger.Repr())
        invariant bigger.itemCapacity == old(bigger.itemCapacity)
        invariant bigger.Keys() == Keys()[..i] && bigger.Vals() == Vals()[..i]
      {
        assert names[i] == Keys()[i] && values[i] == Vals()[i] && names[i] !in Keys()[..i];
        var ok := bigger.Add(names[i], values[i]);
        i := i + 1;
      }
    }

    /** json_object_grow_and_rehash: twice the cells, the same items in the same order. */
    method GrowAndRehash()
      requires Valid()
      modifies Repr()
      ensures Valid() && fresh(Repr() - old(Repr()))
      ensures Keys() == old(Keys()) && Vals() == old(Vals())
      ensures cellCapacity > 0 && count < itemCapacity
      decreases 1, 1
    {
      var newCapacity := if cellCapacity * 2 > STARTING_CAPACITY then cellCapacity * 2 else STARTING_CAPACITY;
      assert PowerOfTwo(newCapacity);
      var bigger := new ObjectTable<V>(newCapacity);
      RehashInto(bigger);
      Adopt(bigger);
    }

    /** The closing struct assignment of json_object_grow_and_rehash. */
    method Adopt(other: ObjectTable<V>)
      requires other.Valid() && other != this
      modifies this
      ensures Valid() && Repr() == {this} + other.Repr() - {other}
      ensures Keys() == other.Keys() && Vals() == other.Vals() && itemCapacity == other.itemCapacity
    {
      ghost var cs, hs := other.cells[..], other.hashes[..other.count];
      ghost var ks, ixs := other.Keys(), other.cellIxs[..other.count];
      cells, hashes, names, values, cellIxs := other.cells, other.hashes, other.names, other.values, other.cellIxs;
      count, itemCapacity, cellCapacity := other.count, other.itemCapacity, other.cellCapacity;
      assert cells[..] == cs && hashes[..count] == hs && Keys() == ks && cellIxs[..count] == ixs;
    }

    /** The tail that json_object_add and json_object_set_value share: grow when full, then append. */
    method Insert(name: Key, hash: nat, value: V, probed: int)
      requires Valid() && name !in Keys() && hash == Hash(name)
      requires cellCapacity > 0 ==> EndsProbe(probed, hash)
      modifies Repr()
      ensures Valid() && fresh(Repr() - old(Repr()))
      ensures Keys() == old(Keys()) + [name] && Vals() == old(Vals()) + [value]
      ensures old(count < itemCapacity) ==> itemCapacity == old(itemCapacity) && Repr() == old(Repr())
      decreases if count >= itemCapacity then 2 else 0, 0
    {
      var cellIx := probed;
      if count >= itemCapacity {
        GrowAndRehash();
        var found;
        cellIx, found := GetCellIx(name, hash);
      }
      Append(name, hash, value, cellIx);
    }

    /** json_object_add: fails exactly on a key that is already there. */
    method Add(name: Key, value: V) returns (ok: bool)
      requires Valid()
      modifies Repr()
      ensures Valid() && fresh(Repr() - old(Repr()))
      ensures ok <==> name !in old(Keys())
      ensures ok ==> Keys() == old(Keys()) + [name] && Vals() == old(Vals()) + [value]
      ensures !ok ==> Keys() == old(Keys()) && Vals() == old(Vals())
      ensures old(count < itemCapacity) ==> itemCapacity == old(itemCapacity) && Repr() == old(Repr())
      decreases if count >= itemCapacity then 2 else 0, 1
    {
      var hash := HashString(name);
      var cellIx, found := GetCellIx(name, hash);
      if found {
        return false;
      }
      Insert(name, hash, value, cellIx);
      ok := true;
    }

    /** json_object_getn_value */
    method GetValue(name: Key) returns (r: Option<V>)
      requires Valid()
      ensures r == if name in Contents() then Some(Contents()[name]) else None
    {
      var hash := HashString(name);
      var cellIx, found := GetCellIx(name, hash);
      if !found {
        return None;
      }
      var itemIx := cells[cellIx];
      AsMapAt(Keys(), Vals(), itemIx);
      return Some(values[itemIx]);
    }

    method Overwrite(itemIx: nat, value: V)
      requires Valid() && itemIx < count
      modifies values
      ensures Valid() && Keys() == old(Keys()) && Vals() == old(Vals())[itemIx := value]
    {
      values[itemIx] := value;
    }

    /** json_object_set_value: overwrites in place or appends; refuses a value that already has a parent. */
    method SetValue(name: Key, value: V, hasParent: bool) returns (ok: bool)
      requires Valid()
      modifies Repr()
      ensures Valid() && fresh(Repr() - old(Repr()))
      ensures ok <==> !hasParent
      ensures !ok ==> Keys() == old(Keys()) && Vals() == old(Vals())
      ensures ok && name !in old(Keys()) ==> Keys() == old(Keys()) + [name] && Vals() == old(Vals()) + [value]
      ensures ok && name in old(Keys()) ==> Keys() == old(Keys())
      ensures ok && name in old(Keys()) ==> Overwrites(old(Keys()), old(Vals()), Vals(), name, value)
    {
      if hasParent {
        return false;
      }
      var hash := HashString(name);
      var cellIx, found := GetCellIx(name, hash);
      if found {
        Overwrite(cells[cellIx], value);
        return true;
      }
      Insert(name, hash, value, cellIx);
      ok := true;
    }

    /** One turn of the backward-shift loop of json_object_remove_internal. */
    method ShiftStep(i: nat, j: nat) returns (stop: bool, i': nat, j': nat)
      requires Shaped() && i < cellCapacity && j < cellCapacity && Next(j, cellCapacity) != i
      requires Shifting(cells[..][i := EMPTY], cellIxs[..count], Homes(hashes[..count], cellCapacity), i, j)
      modifies cells, cellIxs
      ensures j' == Next(j, cellCapacity) && (i' == i || i' == j')
      ensures stop <==> old(cells[j']) == EMPTY
      ensures stop ==> i' == i && Linked(cells[..][i := EMPTY], cellIxs[..count])
      ensures stop ==> GapFree(cells[..][i := EMPTY], cellIxs[..count], Homes(hashes[..count], cellCapacity))
      ensures !stop ==> Shifting(cells[..][i' := EMPTY], cellIxs[..count], Homes(hashes[..count], cellCapacity), i', j')
      ensures forall c :: 0 <= c < cellCapacity && c != i ==> cells[c] == old(cells[c])
    {
      ghost var cs, ixs, homes := cells[..][i := EMPTY], cellIxs[..count], Homes(hashes[..count], cellCapacity);
      NextIsMasked(j, cellCapacity);
      j' := BitAnd(j + 1, cellCapacity - 1);
      assert cells[j'] == cs[j'];
      if cells[j'] == EMPTY {
        ShiftStops(cs, ixs, homes, i, j);
        return true, i, j';
      }
      stop := false;
      var m := cells[j'];
      var k := BitAnd(hashes[m], cellCapacity - 1);
      MaskIsModulo(hashes[m], cellCapacity);
      assert homes[m] == k;
      if (j' > i && (k <= i || k > j')) || (j' < i && (k <= i && k > j')) {
        ShiftMoves(cs, ixs, homes, i, j);
        cellIxs[m] := i;
        cells[i] := m;
        assert cells[..][j' := EMPTY] == cs[i := m][j' := EMPTY];
        assert cellIxs[..count] == ixs[m := i];
        i' := j';
      } else {
        ShiftSkips(cs, ixs, homes, i, j);
        i' := i;
      }
    }

    /** The backward-shift loop of json_object_remove_internal; e is some other empty cell. */
    method CloseHole(cell: nat, ghost e: nat)
      requires Shaped() && cell < cellCapacity && e < cellCapacity && e != cell && cells[e] == EMPTY
      requires Shifting(cells[..][cell := EMPTY], cellIxs[..count], Homes(hashes[..count], cellCapacity), cell, cell)
      modifies cells, cellIxs
      ensures Linked(cells[..], cellIxs[..count])
      ensures GapFree(cells[..], cellIxs[..count], Homes(hashes[..count], cellCapacity))
    {
      ghost var toEmpty := if e > cell then e - cell else e - cell + cellCapacity;
      ghost var y := 0;
      var i, j, x := cell, cell, 0;
      while x < cellCapacity - 1
        invariant 0 <= y <= x < toEmpty < cellCapacity
        invariant j == ProbeAt(cell, x, cellCapacity) && i == ProbeAt(cell, y, cellCapacity)
        invariant cells[e] == EMPTY && e == ProbeAt(cell, toEmpty, cellCapacity)
        invariant Shifting(cells[..][i := EMPTY], cellIxs[..count], Homes(hashes[..count], cellCapacity), i, j)
      {
        var stop, i', j' := ShiftStep(i, j);
        if stop {
          break;
        }
        x := x + 1;
        y := if i' == i then y else x;
        i, j := i', j';
      }
      ghost var cs := cells[..][i := EMPTY];
      cells[i] := EMPTY;
      assert cells[..] == cs;
    }

    /** Overwrites an item with the last one and forgets the last slot. */
    method DropItem(item: nat)
      requires Shaped() && item < count
      modifies this`count, hashes, names, values, cellIxs
      ensures Shaped() && count == old(count) - 1
      ensures Keys() == SwapRemove(old(Keys()), item) && Vals() == SwapRemove(old(Vals()), item)
      ensures hashes[..count] == SwapRemove(old(hashes[..count]), item)
      ensures cellIxs[..count] == SwapRemove(old(cellIxs[..count]), item)
    {
      MoveLast(names, item, count);
      MoveLast(values, item, count);
      MoveLast(cellIxs, item, count);
      MoveLast(hashes, item, count);
      count := count - 1;
    }

    /** Moves the last item into the slot of the removed one. */
    method SwapOut(cell: nat)
      requires Valid() && cell < cellCapacity && 0 <= cells[cell] < count
      modifies this`count, cells, hashes, names, values, cellIxs
      ensures Shaped()
      ensures var item := old(cells[cell]);
        && Keys() == SwapRemove(old(Keys()), item) && Vals() == SwapRemove(old(Vals()), item)
        && hashes[..count] == SwapRemove(old(hashes[..count]), item)
      ensures Shifting(cells[..][cell := EMPTY], cellIxs[..count], Homes(hashes[..count], cellCapacity), cell, cell)
      ensures forall c :: 0 <= c < cellCapacity && old(cells[c]) == EMPTY ==> cells[c] == EMPTY
    {
      hide GapFree, HomesIn, Shifting, PowerOfTwo, Hashed, Distinct;
      ghost var cs, ixs, hs := cells[..], cellIxs[..count], hashes[..count];
      SwapOpensHole(cs, ixs, Homes(hs, cellCapacity), cell);
      var item := cells[cell];
      assert 0 <= ixs[count - 1] < cellCapacity && cs[ixs[count - 1]] == count - 1;
      hide Linked, WellFormed;
      assert forall c :: 0 <= c < cellCapacity && cells[c] == EMPTY ==> cs[c] == EMPTY;
      DropItem(item);
      HomesSwap(hs, item, cellCapacity);
      SwapRemoveSlot(ixs, item);
      hide Homes, SwapRemove;
      if item < count {
        assert cellIxs[item] == cellIxs[..count][item] == ixs[count];
        cells[cellIxs[item]] := item;
      }
      assert cells[..] == if item < count then cs[ixs[count] := item] else cs;
    }

    /** json_object_remove_internal: deletes exactly its own key, however the probe runs wrap. */
    method Remove(name: Key) returns (ok: bool)
      requires Valid()
      modifies this`count, cells, hashes, names, values, cellIxs
      ensures Valid()
      ensures ok <==> name in old(Keys())
      ensures !ok ==> Keys() == old(Keys()) && Vals() == old(Vals())
      ensures ok ==> Removes(old(Keys()), old(Vals()), Keys(), Vals(), name)
    {
      var hash := HashString(name);
      var cell, found := GetCellIx(name, hash);
      if !found {
        return false;
      }
      ghost var ks, vs, hs, item := Keys(), Vals(), hashes[..count], cells[cell];
      ghost var e := EmptyCellExists(cells[..], cellIxs[..count]);
      SwapOut(cell);
      CloseHole(cell, e);
      SwapRemoveKeeps(ks, hs, item);
      ok := true;
    }

    /** json_object_clear: forgets every item and keeps the buffers. */
    method Clear()
      requires Valid()
      modifies this`count, cells, names
      ensures Valid() && count == 0
    {
      var i := 0;
      while i < count
        modifies names
        invariant 0 <= i <= count
      {
        names[i] := [];
        i := i + 1;
      }
      count := 0;
      i := 0;
      while i < cellCapacity
        modifies cells
        invariant 0 <= i <= cellCapacity
        invariant forall c :: 0 <= c < i ==> cells[c] == EMPTY
      {
        cells[i] := EMPTY;
        i := i + 1;
      }
    }
  }

  // ---- Whole runs ---------------------------------------------------------

  datatype Op<V> =
    | Add(key: Key, value: V)
    | Set(key: Key, value: V, hasParent: bool)
    | Remove(key: Key)
    | Get(key: Key)
    | Clear

  datatype Reply<V> = Status(ok: bool) | Value(found: Option<V>)

  /** What a plain map replies to one request, and the map after it. */
  function OnMap<V>(m: map<Key, V>, op: Op<V>): (map<Key, V>, Reply<V>) {
    match op
    case Add(k, v) => if k in m then (m, Status(false)) else (m[k := v], Status(true))
    case Set(k, v, hasParent) => if hasParent then (m, Status(false)) else (m[k := v], Status(true))
    case Remove(k) => (m - {k}, Status(k in m))
    case Get(k) => (m, Value(if k in m then Some(m[k]) else None))
    case Clear => (map[], Status(true))
  }

  function RepliesOnMap<V>(m: map<Key, V>, ops: seq<Op<V>>): seq<Reply<V>>
    decreases |ops|
  {
    if ops == [] then [] else [OnMap(m, ops[0]).1] + RepliesOnMap(OnMap(m, ops[0]).0, ops[1..])
  }

  method Perform<V(0)>(table: ObjectTable<V>, op: Op<V>) returns (reply: Reply<V>)
    requires table.Valid()
    modifies table.Repr()
    ensures table.Valid() && fresh(table.Repr() - old(table.Repr()))
    ensures (table.Contents(), reply) == OnMap(old(table.Contents()), op)
  {
    hide WellFormed, AsMap;
    match op
    case Add(k, v) =>
      AsMapAppend(table.Keys(), table.Vals(), k, v);
      var ok := table.Add(k, v);
      reply := Status(ok);
    case Set(k, v, hasParent) =>
      reply := PerformSet(table, k, v, hasParent);
    case Remove(k) =>
      reply := PerformRemove(table, k);
    case Get(k) =>
      var found := table.GetValue(k);
      reply := Value(found);
    case Clear =>
      table.Clear();
      NoItems<V>();
      reply := Status(true);
  }

  method PerformSet<V(0)>(table: ObjectTable<V>, k: Key, v: V, hasParent: bool) returns (reply: Reply<V>)
    requires table.Valid()
    modifies table.Repr()
    ensures table.Valid() && fresh(table.Repr() - old(table.Repr()))
    ensures (table.Contents(), reply) == OnMap(old(table.Contents()), Set(k, v, hasParent))
  {
    ghost var ks, vs := table.Keys(), table.Vals();
    assert Distinct(ks);
    hide WellFormed, AsMap, Distinct, Removes, Overwrites;
    AsMapAppend(ks, vs, k, v);
    var ok := table.SetValue(k, v, hasParent);
    if ok && k in ks {
      OverwritesInMap(ks, vs, table.Vals(), k, v);
    }
    reply := Status(ok);
  }

  method PerformRemove<V(0)>(table: ObjectTable<V>, k: Key) returns (reply: Reply<V>)
    requires table.Valid()
    modifies table.Repr()
    ensures table.Valid() && fresh(table.Repr() - old(table.Repr()))
    ensures (table.Contents(), reply) == OnMap(old(table.Contents()), Remove(k))
  {
    ghost var ks, vs := table.Keys(), table.Vals();
    assert Distinct(ks);
    hide WellFormed, AsMap, Distinct, Removes, Overwrites;
    var ok := table.Remove(k);
    if ok {
      RemovesFromMap(ks, vs, table.Keys(), table.Vals(), k);
    } else {
      assert AsMap(ks, vs) - {k} == AsMap(ks, vs);
    }
    reply := Status(ok);
  }

  /** No sequence of requests to a new table can be told apart from the same sequence to a map. */
  method RunOps<V(0)>(ops: seq<Op<V>>) returns (replies: seq<Reply<V>>)
    ensures replies == RepliesOnMap(map[], ops)
  {
    hide OnMap, AsMap, WellFormed, RepliesOnMap;
    var table := new ObjectTable<V>(0);
    assert table.Contents() == map[] by { NoItems<V>(); }
    replies := [];
    assert ops[0..] == ops;
    var i := 0;
    while i < |ops|
      invariant 0 <= i <= |ops|
      invariant table.Valid() && fresh(table.Repr())
      invariant replies + RepliesOnMap(table.Contents(), ops[i..]) == RepliesOnMap(map[], ops)
    {
      ghost var m := table.Contents();
      var reply := Perform(table, ops[i]);
      OneReply(m, ops, i);
      Associates(replies, [reply], RepliesOnMap(table.Contents(), ops[i + 1..]));
      replies := replies + [reply];
      i := i + 1;
    }
    assert RepliesOnMap(table.Contents(), ops[i..]) == [] by { NoReplies(table.Contents()); assert ops[i..] == []; }
  }

  lemma OneReply<V>(m: map<Key, V>, ops: seq<Op<V>>, i: nat)
    requires i < |ops|
    ensures RepliesOnMap(m, ops[i..]) == [OnMap(m, ops[i]).1] + RepliesOnMap(OnMap(m, ops[i]).0, ops[i + 1..])
  {
    hide OnMap;
    assert ops[i..][0] == ops[i] && ops[i..][1..] == ops[i + 1..];
  }

  lemma NoReplies<V>(m: map<Key, V>)
    ensures RepliesOnMap(m, []) == []
  {
  }
}
