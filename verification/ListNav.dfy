/** Jumping between letter groups of a list with headers and unselectable rows. */
module ListNav {
  import opened Arithmetic
  import opened Bytes

  /** A row: its name, if it has one, as the bytes in front of the terminator. */
  datatype Item = Item(name: Option<Bytes>, isHeader: bool, unselectable: bool)

  /** nav_skip */
  predicate Skip(item: Item) { item.isHeader || item.unselectable }

  /** toupper in the C locale */
  function Upper(c: byte): byte { if 0x61 <= c <= 0x7A then c - 0x20 else c }

  /** nav_letter: 0 for no name and for an empty one. */
  function Letter(item: Item): byte {
    if item.name.None? || item.name.value == [] then 0 else Upper(item.name.value[0])
  }

  /** The same byte, or the same letter in the other case. */
  predicate SameButCase(c: byte, d: byte) {
    || c == d
    || (0x61 <= c <= 0x7A && d as int == c as int - 0x20)
    || (0x61 <= d <= 0x7A && c as int == d as int - 0x20)
  }

  /** Two named rows are of one group exactly when their first bytes are the same but for the case of a letter. */
  lemma LettersFoldCase(a: Item, b: Item)
    requires a.name.Some? && b.name.Some? && a.name.value != [] && b.name.value != []
    ensures Letter(a) == Letter(b) <==> SameButCase(a.name.value[0], b.name.value[0])
  {
  }

  /** A row that can be stopped at and does not have the letter. */
  predicate Other(item: Item, letter: byte) { !Skip(item) && Letter(item) != letter }

  // ---- The searches -------------------------------------------------------

  /** The first row from i on with another letter, or -1. */
  function Ahead(items: seq<Item>, i: nat, letter: byte): (r: int)
    requires i <= |items|
    ensures r == -1 || (i <= r < |items| && Other(items[r], letter))
    ensures forall j :: i <= j < (if r == -1 then |items| else r) ==> !Other(items[j], letter)
    decreases |items| - i
  {
    if i == |items| then -1 else if Other(items[i], letter) then i else Ahead(items, i + 1, letter)
  }

  /** The last row before i with another letter, or -1. */
  function Behind(items: seq<Item>, i: nat, letter: byte): (r: int)
    requires i <= |items|
    ensures -1 <= r < i && (r >= 0 ==> Other(items[r], letter))
    ensures forall j :: r < j < i ==> !Other(items[j], letter)
  {
    if i == 0 then -1 else if Other(items[i - 1], letter) then i - 1 else Behind(items, i - 1, letter)
  }

  /** Walking back over rows before i while they keep the letter: the earliest of them, or target. */
  function WalkBack(items: seq<Item>, i: nat, letter: byte, target: nat): (r: nat)
    requires i <= target < |items|
    ensures r <= target
  {
    if i == 0 then target
    else if Skip(items[i - 1]) then WalkBack(items, i - 1, letter, target)
    else if Letter(items[i - 1]) == letter then WalkBack(items, i - 1, letter, i - 1)
    else target
  }

  function GroupStart(items: seq<Item>, i: nat): nat
    requires i < |items|
  {
    WalkBack(items, i, Letter(items[i]), i)
  }

  /** ListNav_NextLetterIndex */
  function NextIndex(items: seq<Item>, selected: int): int {
    if selected < 0 || selected >= |items| then selected
    else
      var letter := Letter(items[selected]);
      var a := Ahead(items, selected + 1, letter);
      if a != -1 then a
      else var w := Ahead(items, 0, letter); if w != -1 then w else selected
  }

  /** ListNav_PrevLetterIndex */
  function PrevIndex(items: seq<Item>, selected: int): int {
    if selected < 0 || selected >= |items| then selected
    else
      var letter := Letter(items[selected]);
      var b := Behind(items, selected, letter);
      if b != -1 then GroupStart(items, b)
      else var w := Behind(items, |items|, letter); if w != -1 then GroupStart(items, w) else selected
  }

  // ---- The loops ----------------------------------------------------------

  method SearchAhead(items: seq<Item>, from: nat, letter: byte) returns (target: int)
    requires from <= |items|
    ensures target == Ahead(items, from, letter)
  {
    var i := from;
    while i < |items|
      invariant from <= i <= |items| && Ahead(items, i, letter) == Ahead(items, from, letter)
    {
      if !Skip(items[i]) && Letter(items[i]) != letter {
        return i;
      }
      i := i + 1;
    }
    target := -1;
  }

  method SearchBehind(items: seq<Item>, from: nat, letter: byte) returns (target: int)
    requires from <= |items|
    ensures var b := Behind(items, from, letter); target == if b == -1 then -1 else GroupStart(items, b)
  {
    var i := from;
    while i > 0
      invariant 0 <= i <= from && Behind(items, i, letter) == Behind(items, from, letter)
    {
      i := i - 1;
      if Skip(items[i]) {
        continue;
      }
      var found := Letter(items[i]);
      if found != letter {
        target := i;
        var j := i;
        while j > 0
          invariant 0 <= j <= target <= i && WalkBack(items, j, found, target) == GroupStart(items, i)
        {
          j := j - 1;
          if Skip(items[j]) {
            continue;
          }
          if Letter(items[j]) == found {
            target := j;
          } else {
            return;
          }
        }
        return;
      }
    }
    target := -1;
  }

  method NextLetterIndex(items: seq<Item>, selected: int) returns (r: int)
    ensures r == NextIndex(items, selected)
  {
    if selected < 0 || selected >= |items| {
      return selected;
    }
    var target := SearchAhead(items, selected + 1, Letter(items[selected]));
    if target == -1 {
      target := SearchAhead(items, 0, Letter(items[selected]));
    }
    r := if target != -1 then target else selected;
  }

  method PrevLetterIndex(items: seq<Item>, selected: int) returns (r: int)
    ensures r == PrevIndex(items, selected)
  {
    if selected < 0 || selected >= |items| {
      return selected;
    }
    var target := SearchBehind(items, selected, Letter(items[selected]));
    if target == -1 {
      target := SearchBehind(items, |items|, Letter(items[selected]));
    }
    r := if target != -1 then target else selected;
  }

  // ---- Grouped lists ------------------------------------------------------

  predicate Stop(items: seq<Item>, i: int) { 0 <= i < |items| && !Skip(items[i]) }

  /** The selectable rows of one letter are not interrupted by another letter. */
  ghost predicate Grouped(items: seq<Item>) {
    forall a, b, c :: a < b < c && Stop(items, a) && Stop(items, b) && Stop(items, c) ==>
      Letter(items[a]) == Letter(items[c]) ==> Letter(items[b]) == Letter(items[a])
  }

  /** The first selectable row of its letter. */
  predicate IsHead(items: seq<Item>, i: int) {
    Stop(items, i) && forall j :: 0 <= j < i && Stop(items, j) ==> Letter(items[j]) != Letter(items[i])
  }

  function HeadsBelow(items: seq<Item>, n: nat): (hs: seq<int>)
    requires n <= |items|
    ensures forall h :: h in hs <==> 0 <= h < n && IsHead(items, h)
    ensures forall a, b :: 0 <= a < b < |hs| ==> hs[a] < hs[b]
  {
    if n == 0 then []
    else
      var hs := HeadsBelow(items, n - 1);
      assert forall a :: 0 <= a < |hs| ==> hs[a] in hs;
      hs + if IsHead(items, n - 1) then [n - 1] else []
  }

  /** The heads of all groups, in list order. */
  function Heads(items: seq<Item>): seq<int> { HeadsBelow(items, |items|) }

  lemma {:induction false} HeadOf(items: seq<Item>, i: nat) returns (h: nat)
    requires Stop(items, i)
    ensures h <= i && IsHead(items, h) && Letter(items[h]) == Letter(items[i])
  {
    if IsHead(items, i) {
      h := i;
    } else {
      var j :| 0 <= j < i && Stop(items, j) && Letter(items[j]) == Letter(items[i]);
      h := HeadOf(items, j);
    }
  }

  /** Row i belongs to the m-th group. */
  predicate InGroup(items: seq<Item>, m: int, i: int) {
    && 0 <= m < |Heads(items)| && Stop(items, i)
    && IsHead(items, Heads(items)[m]) && Letter(items[i]) == Letter(items[Heads(items)[m]])
  }

  /** From the head of a group to any of its rows, every selectable row has its letter. */
  lemma GroupIsContiguous(items: seq<Item>, m: int, i: int, j: int)
    requires Grouped(items) && InGroup(items, m, i) && Stop(items, j)
    ensures Heads(items)[m] <= i
    ensures Heads(items)[m] <= j <= i ==> Letter(items[j]) == Letter(items[i])
  {
    hide Heads, Letter, Skip;
  }

  /** The heads are exactly the listed rows. */
  lemma Listed(items: seq<Item>)
    ensures forall k :: 0 <= k < |Heads(items)| ==> IsHead(items, Heads(items)[k])
    ensures forall g :: IsHead(items, g) ==> g in Heads(items)
    ensures forall a, b :: 0 <= a < b < |Heads(items)| ==> Heads(items)[a] < Heads(items)[b]
  {
    hide Letter, Skip;
    assert forall k :: 0 <= k < |Heads(items)| ==> Heads(items)[k] in Heads(items);
  }

  /** A head with no head between it and the m-th one is the next. */
  lemma NextHead(items: seq<Item>, m: int, i: int)
    requires 0 <= m < |Heads(items)| && IsHead(items, i) && Heads(items)[m] < i
    requires forall g :: IsHead(items, g) ==> !(Heads(items)[m] < g < i)
    ensures m + 1 < |Heads(items)| && Heads(items)[m + 1] == i
  {
    hide IsHead, Heads;
    Listed(items);
    var k :| 0 <= k < |Heads(items)| && Heads(items)[k] == i;
  }

  lemma LastGroup(items: seq<Item>, m: int)
    requires 0 <= m < |Heads(items)| && forall g :: IsHead(items, g) ==> g <= Heads(items)[m]
    ensures m == |Heads(items)| - 1
  {
    hide IsHead, Heads;
    Listed(items);
    var last := Heads(items)[|Heads(items)| - 1];
  }

  lemma FirstGroup(items: seq<Item>, m: int)
    requires 0 <= m < |Heads(items)| && forall g :: IsHead(items, g) ==> g >= Heads(items)[m]
    ensures m == 0
  {
    hide IsHead, Heads;
    Listed(items);
    var first := Heads(items)[0];
  }

  /** A selectable row of another letter behind a row of group m is behind the group, and no head lies between. */
  lemma AheadIsHead(items: seq<Item>, m: int, i: int, a: int)
    requires Grouped(items) && InGroup(items, m, i) && i < a < |items| && Other(items[a], Letter(items[i]))
    requires forall j :: i < j < a ==> !Other(items[j], Letter(items[i]))
    ensures IsHead(items, a) && Heads(items)[m] < a && forall g :: IsHead(items, g) ==> !(Heads(items)[m] < g < a)
  {
    hide Heads, Letter;
    var h := Heads(items)[m];
    GroupIsContiguous(items, m, i, i);
    assert Stop(items, a);
    forall j | 0 <= j < a && Stop(items, j) ensures Letter(items[j]) != Letter(items[a]) {}
    forall g | IsHead(items, g) ensures !(h < g < a) {
      if h < g <= i { GroupIsContiguous(items, m, i, g); }
    }
  }

  /** Next-letter goes from any row of a group to the head of the next group, cyclically. */
  lemma NextIsNextHead(items: seq<Item>, m: int, i: int)
    requires Grouped(items) && InGroup(items, m, i) && |Heads(items)| >= 2
    ensures NextIndex(items, i) == Heads(items)[if m + 1 < |Heads(items)| then m + 1 else 0]
  {
    hide Letter, IsHead, Grouped;
    var letter := Letter(items[i]);
    var a := Ahead(items, i + 1, letter);
    if a != -1 {
      AheadIsHead(items, m, i, a);
      NextHead(items, m, a);
    } else {
      NoneAhead(items, m, i);
      LastGroup(items, m);
      WrapsToFirst(items, m, i);
    }
  }

  lemma NoneAhead(items: seq<Item>, m: int, i: int)
    requires Grouped(items) && InGroup(items, m, i)
    requires forall j :: i < j < |items| ==> !Other(items[j], Letter(items[i]))
    ensures forall g :: IsHead(items, g) ==> g <= Heads(items)[m]
  {
    hide Heads, Letter;
    var h := Heads(items)[m];
    forall g | IsHead(items, g) ensures g <= h {
      if h < g <= i { GroupIsContiguous(items, m, i, g); }
    }
  }

  lemma WrapsToFirst(items: seq<Item>, m: int, i: int)
    requires InGroup(items, m, i) && m == |Heads(items)| - 1 && m > 0
    ensures Ahead(items, 0, Letter(items[i])) == Heads(items)[0] >= 0
  {
    hide Letter, Skip, Heads;
    Listed(items);
    var hs, letter := Heads(items), Letter(items[i]);
    assert IsHead(items, hs[0]) && IsHead(items, hs[m]) && hs[0] < hs[m];
    assert Other(items[hs[0]], letter);
    var a := Ahead(items, 0, letter);
    var h := HeadOf(items, a);
    assert h in hs;
  }

  // ---- Going back ---------------------------------------------------------

  /** In a grouped list walking back reaches the head of the group. */
  lemma {:induction false} WalkBackIsHead(items: seq<Item>, i: nat, target: nat)
    requires Grouped(items) && i <= target < |items| && Stop(items, target)
    requires forall j :: i <= j < target ==> !Stop(items, j)
    ensures var r := WalkBack(items, i, Letter(items[target]), target);
            IsHead(items, r) && Letter(items[r]) == Letter(items[target])
  {
    hide Letter;
    if i > 0 {
      if Skip(items[i - 1]) {
        WalkBackIsHead(items, i - 1, target);
      } else if Letter(items[i - 1]) == Letter(items[target]) {
        WalkBackIsHead(items, i - 1, i - 1);
      } else {
        assert Stop(items, i - 1);
      }
    }
  }

  lemma GroupStartIsHead(items: seq<Item>, b: int)
    requires Grouped(items) && Stop(items, b)
    ensures var h := GroupStart(items, b); h <= b && IsHead(items, h) && Letter(items[h]) == Letter(items[b])
  {
    hide Letter, Grouped;
    WalkBackIsHead(items, b, b);
  }

  /** The head of a row with another letter just in front of group m comes right before it. */
  lemma BehindIsHead(items: seq<Item>, m: int, i: int, b: int)
    requires Grouped(items) && InGroup(items, m, i) && 0 <= b < i && Other(items[b], Letter(items[i]))
    requires forall j :: b < j < i ==> !Other(items[j], Letter(items[i]))
    ensures var h := GroupStart(items, b);
            && IsHead(items, h) && h < Heads(items)[m] && forall g :: IsHead(items, g) ==> !(h < g < Heads(items)[m])
  {
    hide Letter, Heads, GroupStart;
    assert Stop(items, b);
    GroupStartIsHead(items, b);
    GroupIsContiguous(items, m, i, b);
    var h := GroupStart(items, b);
    forall g | IsHead(items, g) ensures !(h < g < Heads(items)[m]) {}
  }

  /** The head of the last row with a letter other than that of the first group heads the last group. */
  lemma LastOtherIsLast(items: seq<Item>, i: int, b: int)
    requires Grouped(items) && InGroup(items, 0, i) && |Heads(items)| >= 2
    requires b == Behind(items, |items|, Letter(items[i]))
    ensures b >= 0 && GroupStart(items, b) == Heads(items)[|Heads(items)| - 1]
  {
    hide Letter, Heads, GroupStart, Skip;
    Listed(items);
    var hs := Heads(items);
    var last := hs[|hs| - 1];
    assert IsHead(items, hs[0]) && IsHead(items, last) && hs[0] < last;
    assert Other(items[last], Letter(items[i]));
    assert Stop(items, b);
    GroupStartIsHead(items, b);
    var h := GroupStart(items, b);
    assert last <= b;
    assert h in hs && h <= last;
  }

  /** Prev-letter goes from any row of a group to the head of the group before it, cyclically. */
  lemma PrevIsPrevHead(items: seq<Item>, m: int, i: int)
    requires Grouped(items) && InGroup(items, m, i) && |Heads(items)| >= 2
    ensures PrevIndex(items, i) == Heads(items)[if m > 0 then m - 1 else |Heads(items)| - 1]
  {
    hide Letter, IsHead, Grouped, GroupStart, Heads;
    var letter := Letter(items[i]);
    var b := Behind(items, i, letter);
    if b != -1 {
      BehindIsHead(items, m, i, b);
      PrevHead(items, m, GroupStart(items, b));
    } else {
      NoneBehind(items, m, i);
      FirstGroup(items, m);
      LastOtherIsLast(items, i, Behind(items, |items|, letter));
    }
  }

  lemma PrevHead(items: seq<Item>, m: int, h: int)
    requires 0 <= m < |Heads(items)| && IsHead(items, h) && h < Heads(items)[m]
    requires forall g :: IsHead(items, g) ==> !(h < g < Heads(items)[m])
    ensures m > 0 && Heads(items)[m - 1] == h
  {
    hide IsHead, Heads;
    Listed(items);
    var k :| 0 <= k < |Heads(items)| && Heads(items)[k] == h;
  }

  lemma NoneBehind(items: seq<Item>, m: int, i: int)
    requires Grouped(items) && InGroup(items, m, i) && forall j :: 0 <= j < i ==> !Other(items[j], Letter(items[i]))
    ensures forall g :: IsHead(items, g) ==> g >= Heads(items)[m]
  {
    hide Heads, Letter;
    GroupIsContiguous(items, m, i, i);
  }

  // ---- Round trips --------------------------------------------------------

  lemma HeadInGroup(items: seq<Item>, m: int)
    requires 0 <= m < |Heads(items)|
    ensures InGroup(items, m, Heads(items)[m])
  {
    hide Heads;
    Listed(items);
  }

  /** On the heads of a list with at least two groups, forward and backward undo each other. */
  lemma NextAndPrevAreInverse(items: seq<Item>, m: int)
    requires Grouped(items) && |Heads(items)| >= 2 && 0 <= m < |Heads(items)|
    ensures PrevIndex(items, NextIndex(items, Heads(items)[m])) == Heads(items)[m]
    ensures NextIndex(items, PrevIndex(items, Heads(items)[m])) == Heads(items)[m]
  {
    hide Grouped, NextIndex, PrevIndex, InGroup, Heads;
    var k := |Heads(items)|;
    var next, prev := if m + 1 < k then m + 1 else 0, if m > 0 then m - 1 else k - 1;
    HeadInGroup(items, m);
    HeadInGroup(items, next);
    HeadInGroup(items, prev);
    NextIsNextHead(items, m, Heads(items)[m]);
    PrevIsPrevHead(items, m, Heads(items)[m]);
    PrevIsPrevHead(items, next, Heads(items)[next]);
    NextIsNextHead(items, prev, Heads(items)[prev]);
  }

  function Forward(items: seq<Item>, i: int, steps: nat): int {
    if steps == 0 then i else NextIndex(items, Forward(items, i, steps - 1))
  }

  lemma NextModulo(a: nat, k: nat)
    requires k > 0
    ensures (a + 1) % k == if a % k + 1 < k then a % k + 1 else 0
  {
    var q, r := a / k, a % k;
    assert a == k * q + r;
    if r + 1 < k {
      DivisionIsUnique(a + 1, k, q, r + 1);
    } else {
      assert a + 1 == k * (q + 1);
      DivisionIsUnique(a + 1, k, q + 1, 0);
    }
  }

  /** Any number of steps forward from head m stands on the head that many groups further, counted round. */
  lemma {:induction false} ForwardWalksHeads(items: seq<Item>, m: int, steps: nat)
    requires Grouped(items) && |Heads(items)| >= 2 && 0 <= m < |Heads(items)|
    ensures Forward(items, Heads(items)[m], steps) == Heads(items)[(m + steps) % |Heads(items)|]
  {
    hide Grouped, NextIndex, InGroup, Heads;
    if steps > 0 {
      ForwardWalksHeads(items, m, steps - 1);
      var k := |Heads(items)|;
      var before := (m + steps - 1) % k;
      HeadInGroup(items, before);
      NextIsNextHead(items, before, Heads(items)[before]);
      NextModulo(m + steps - 1, k);
    } else {
      DivisionIsUnique(m, |Heads(items)|, 0, m);
    }
  }

  /** Next-letter is back at its head exactly after a multiple of the number of groups. */
  lemma ForwardReturns(items: seq<Item>, m: int, steps: nat)
    requires Grouped(items) && |Heads(items)| >= 2 && 0 <= m < |Heads(items)|
    ensures Forward(items, Heads(items)[m], steps) == Heads(items)[m] <==> steps % |Heads(items)| == 0
  {
    hide Grouped, Forward, IsHead, Heads;
    Listed(items);
    ForwardWalksHeads(items, m, steps);
    SameRemainder(m, steps, |Heads(items)|);
  }

  lemma SameRemainder(m: nat, n: nat, k: nat)
    requires m < k
    ensures (m + n) % k == m <==> n % k == 0
  {
    var q, r := n / k, n % k;
    assert n == k * q + r;
    if m + r < k {
      DivisionIsUnique(m + n, k, q, m + r);
    } else {
      assert m + n == k * (q + 1) + (m + r - k);
      DivisionIsUnique(m + n, k, q + 1, m + r - k);
    }
  }

  /** On the way it stands on the head of every group, whatever group it started from. */
  lemma ForwardVisits(items: seq<Item>, m: int, g: int) returns (s: nat)
    requires Grouped(items) && |Heads(items)| >= 2 && 0 <= m < |Heads(items)| && IsHead(items, g)
    ensures s < |Heads(items)| && Forward(items, Heads(items)[m], s) == g
  {
    hide Grouped, Forward, IsHead, Heads;
    Listed(items);
    var k := |Heads(items)|;
    var at :| 0 <= at < k && Heads(items)[at] == g;
    s := if at >= m then at - m else at - m + k;
    ForwardWalksHeads(items, m, s);
    DivisionIsUnique(m + s, k, if at >= m then 0 else 1, at);
  }
}
