/** The ordered children of a Gtk.ListBox, seen as a sequence of distinct rows,
    and the sequence operations the list box offers: get_index, remove and
    insert.  The drag-and-drop reorder and the Move Up / Move Down actions are
    compositions of these. */
module RowLists {

  /** No row occurs twice: a widget has at most one place in its parent. */
  predicate Distinct<T(==)>(s: seq<T>) {
    forall i, j :: 0 <= i < j < |s| ==> s[i] != s[j]
  }

  /** get_index(): the position of x among the children, -1 when x is not one. */
  function IndexOf<T(==)>(s: seq<T>, x: T): (i: int)
    ensures -1 <= i < |s|
    ensures i == -1 <==> x !in s
    ensures 0 <= i ==> s[i] == x && x !in s[..i]
  {
    if |s| == 0 then -1
    else if s[0] == x then 0
    else
      var k := IndexOf(s[1..], x);
      assert k >= 0 ==> s[..k + 1] == [s[0]] + s[1..][..k];
      if k == -1 then -1 else k + 1
  }

  /** In a list of distinct rows, the row at position k reports index k. */
  lemma IndexOfDistinct<T>(s: seq<T>, k: int)
    requires Distinct(s) && 0 <= k < |s|
    ensures IndexOf(s, s[k]) == k
  {
  }

  /** The list without the child at position i. */
  function RemoveAt<T>(s: seq<T>, i: int): (r: seq<T>)
    requires 0 <= i < |s|
    ensures |r| == |s| - 1
  {
    s[..i] + s[i + 1..]
  }

  /** The position where insert(x, pos) puts x in a list of n children: a
      position outside 0..n (the toolkit's -1 included) appends. */
  function Slot(n: nat, pos: int): (k: nat)
    ensures k <= n
    ensures 0 <= pos <= n ==> k == pos
    ensures !(0 <= pos <= n) ==> k == n
  {
    if 0 <= pos <= n then pos else n
  }

  /** insert(x, pos): x placed at Slot(|s|, pos), the rest kept in order. */
  function InsertAt<T>(s: seq<T>, pos: int, x: T): (r: seq<T>)
    ensures |r| == |s| + 1
  {
    var k := Slot(|s|, pos);
    s[..k] + [x] + s[k..]
  }

  /** remove(x): x taken out if it is a child; otherwise nothing changes. */
  function RemoveRow<T(==)>(s: seq<T>, x: T): (r: seq<T>)
  {
    if x in s then RemoveAt(s, IndexOf(s, x)) else s
  }

  /** The reorder performed by a drop: the row at i is taken out and put back
      at j, j being its target's index before the removal. */
  function Moved<T>(s: seq<T>, i: int, j: int): (r: seq<T>)
    requires 0 <= i < |s| && 0 <= j < |s|
  {
    InsertAt(RemoveAt(s, i), j, s[i])
  }

  /** s with the rows at a and b exchanged. */
  function Swapped<T>(s: seq<T>, a: int, b: int): (r: seq<T>)
    requires 0 <= a < |s| && 0 <= b < |s|
  {
    s[a := s[b]][b := s[a]]
  }

  /** Independent description of a move: the position, in the old list, of the
      row that ends at position k once the row at i has moved to j. Rows
      between the two positions shift by one towards i; all others stay. */
  function Origin(i: int, j: int, k: int): int {
    if k == j then i
    else if i < j && i <= k < j then k + 1
    else if j < i && j < k <= i then k - 1
    else k
  }

  lemma RemoveAtAt<T>(s: seq<T>, i: int, k: int)
    requires 0 <= i < |s| && 0 <= k < |s| - 1
    ensures RemoveAt(s, i)[k] == if k < i then s[k] else s[k + 1]
  {
  }

  lemma InsertAtAt<T>(s: seq<T>, pos: int, x: T, k: int)
    requires 0 <= k <= |s|
    ensures InsertAt(s, pos, x)[k] ==
      var p := Slot(|s|, pos); if k < p then s[k] else if k == p then x else s[k - 1]
  {
  }

  /** Removing a child that is there takes out exactly its position. */
  lemma RemoveRowIsRemoveAt<T>(s: seq<T>, k: int)
    requires Distinct(s) && 0 <= k < |s|
    ensures RemoveRow(s, s[k]) == RemoveAt(s, k)
  {
    IndexOfDistinct(s, k);
  }

  /** Taking out the row at i keeps the order of the others and loses exactly
      that row. */
  lemma RemoveAtSpec<T>(s: seq<T>, i: int)
    requires 0 <= i < |s|
    ensures var r := RemoveAt(s, i);
      && multiset(r) == multiset(s) - multiset{s[i]}
      && (forall k :: 0 <= k < |r| ==> r[k] == if k < i then s[k] else s[k + 1])
  {
    assert s == s[..i] + [s[i]] + s[i + 1..];
    assert multiset(s) == multiset(s[..i]) + multiset{s[i]} + multiset(s[i + 1..]);
  }

  /** Taking a row out of a duplicate-free list leaves no copy of it behind. */
  lemma RemoveAtDistinct<T>(s: seq<T>, i: int)
    requires 0 <= i < |s| && Distinct(s)
    ensures Distinct(RemoveAt(s, i)) && s[i] !in RemoveAt(s, i)
  {
    var r := RemoveAt(s, i);
    forall a, b | 0 <= a < b < |r| ensures r[a] != r[b] {
      RemoveAtAt(s, i, a);
      RemoveAtAt(s, i, b);
    }
    forall k | 0 <= k < |r| ensures r[k] != s[i] {
      RemoveAtAt(s, i, k);
    }
  }

  /** Delete: remove(x) on a child loses exactly that row, keeps the order of
      the others, and leaves no duplicate. */
  lemma RemoveRowSpec<T>(s: seq<T>, x: T)
    requires Distinct(s) && x in s
    ensures var r := RemoveRow(s, x);
      && |r| == |s| - 1
      && x !in r
      && Distinct(r)
      && multiset(r) == multiset(s) - multiset{x}
      && (forall k :: 0 <= k < |r| ==> r[k] == if k < IndexOf(s, x) then s[k] else s[k + 1])
  {
    RemoveAtSpec(s, IndexOf(s, x));
    RemoveAtDistinct(s, IndexOf(s, x));
  }

  /** insert(x, pos) undone: taking the child at its slot out gives back s. */
  lemma InsertThenRemove<T>(s: seq<T>, pos: int, x: T)
    ensures var r := InsertAt(s, pos, x);
      var k := Slot(|s|, pos);
      r[k] == x && RemoveAt(r, k) == s
  {
    var k := Slot(|s|, pos);
    var r := InsertAt(s, pos, x);
    assert r[..k] == s[..k];
    assert r[k + 1..] == s[k..];
  }

  /** Every row of a moved list comes from the old list at Origin(i, j, k). */
  lemma MovedAt<T>(s: seq<T>, i: int, j: int, k: int)
    requires 0 <= i < |s| && 0 <= j < |s| && 0 <= k < |s|
    ensures |Moved(s, i, j)| == |s|
    ensures 0 <= Origin(i, j, k) < |s|
    ensures Moved(s, i, j)[k] == s[Origin(i, j, k)]
  {
    var r := RemoveAt(s, i);
    InsertAtAt(r, j, s[i], k);
    if k < j {
      RemoveAtAt(s, i, k);
    } else if k > j {
      RemoveAtAt(s, i, k - 1);
    }
  }

  /** Moving back from j to i undoes a move from i to j. */
  lemma {:induction false} OriginInverse(i: int, j: int, k: int)
    ensures Origin(i, j, Origin(j, i, k)) == k
  {
  }

  /** Dropping the moved row back on its old place restores the list. */
  lemma MoveUndone<T>(s: seq<T>, i: int, j: int)
    requires 0 <= i < |s| && 0 <= j < |s|
    ensures |Moved(s, i, j)| == |s|
    ensures Moved(Moved(s, i, j), j, i) == s
  {
    var m := Moved(s, i, j);
    MovedAt(s, i, j, 0);
    var b := Moved(m, j, i);
    MovedAt(m, j, i, 0);
    forall k | 0 <= k < |s| ensures b[k] == s[k] {
      MovedAt(m, j, i, k);
      MovedAt(s, i, j, Origin(j, i, k));
      OriginInverse(i, j, k);
    }
  }

  /** A move neither adds, loses nor duplicates rows. */
  lemma MovedPermutes<T>(s: seq<T>, i: int, j: int)
    requires 0 <= i < |s| && 0 <= j < |s|
    ensures |Moved(s, i, j)| == |s|
    ensures multiset(Moved(s, i, j)) == multiset(s)
    ensures Distinct(s) ==> Distinct(Moved(s, i, j))
  {
    var r := RemoveAt(s, i);
    var k := Slot(|r|, j);
    assert s == s[..i] + [s[i]] + s[i + 1..];
    assert multiset(s) == multiset(r) + multiset{s[i]};
    assert r == r[..k] + r[k..];
    assert multiset(r) == multiset(r[..k]) + multiset(r[k..]);
    var m := Moved(s, i, j);
    if Distinct(s) {
      forall a, b | 0 <= a < b < |m| ensures m[a] != m[b] {
        MovedAt(s, i, j, a);
        MovedAt(s, i, j, b);
        OriginInverse(j, i, a);
        OriginInverse(j, i, b);
      }
    }
  }

  /** The dragged row lands on the target's old index, and the other rows keep
      their relative order: taking the moved row out of either list leaves the
      same sequence. */
  lemma MovedLandsAtTarget<T>(s: seq<T>, i: int, j: int)
    requires 0 <= i < |s| && 0 <= j < |s|
    ensures |Moved(s, i, j)| == |s|
    ensures Moved(s, i, j)[j] == s[i]
    ensures RemoveAt(Moved(s, i, j), j) == RemoveAt(s, i)
    ensures Distinct(s) ==> IndexOf(Moved(s, i, j), s[i]) == j
  {
    InsertThenRemove(RemoveAt(s, i), j, s[i]);
    if Distinct(s) {
      MovedPermutes(s, i, j);
      IndexOfDistinct(Moved(s, i, j), j);
    }
  }

  /** A move to a neighbouring position exchanges the two rows. */
  lemma AdjacentMoveSwaps<T>(s: seq<T>, i: int, j: int)
    requires 0 <= i < |s| && 0 <= j < |s|
    requires j == i - 1 || j == i + 1
    ensures Moved(s, i, j) == Swapped(s, i, j)
  {
    var m := Moved(s, i, j);
    MovedAt(s, i, j, 0);
    forall k | 0 <= k < |s| ensures m[k] == Swapped(s, i, j)[k] {
      MovedAt(s, i, j, k);
    }
  }
}
