/**
 * The helpers the library client exports from its utilities module: paging,
 * sorting and filtering of lists, and due-date, overdue-day and fine
 * arithmetic.
 *
 * Timestamps are milliseconds since the epoch, the clock is passed in as
 * `now`, and money is counted in integer cents.
 */
module Helpers {
  import opened Wrappers
  import opened JsValues

  // ===========================================================================
  // paginate

  /** Where `Array.prototype.slice` puts a relative index: a negative one counts back from the end, then it is clamped to `[0, len]`. */
  function SliceIndex(relative: int, len: nat): (k: nat)
    ensures k <= len
    ensures 0 <= relative ==> k == Min(relative, len)
  {
    if relative < 0 then (if len + relative < 0 then 0 else len + relative)
    else Min(relative, len)
  }

  /** `a.slice(start, end)`. */
  function Slice<T>(a: seq<T>, start: int, end: int): (r: seq<T>)
    ensures |r| <= |a|
    ensures 0 <= start <= end ==> r == a[Min(start, |a|)..Min(end, |a|)]
    ensures end <= start && (0 <= end || start < 0) ==> r == []
  {
    var from := SliceIndex(start, |a|);
    var to := SliceIndex(end, |a|);
    if from < to then a[from..to] else []
  }

  lemma MulNonNegative(x: int, y: int)
    requires 0 <= x && 0 <= y
    ensures 0 <= x * y
  {
  }

  lemma MulMonotone(x: int, y: int, n: int)
    requires x <= y && 0 <= n
    ensures x * n <= y * n
  {
    MulNonNegative(y - x, n);
    assert y * n - x * n == (y - x) * n;
  }

  lemma PageArithmetic(page: int, pageSize: int)
    ensures 1 <= page && 0 <= pageSize ==> 0 <= (page - 1) * pageSize
    ensures page * pageSize == (page - 1) * pageSize + pageSize
  {
    if 1 <= page && 0 <= pageSize { MulNonNegative(page - 1, pageSize); }
  }

  /** Index of the first item of page `page` (counted from 1) in a list of `len` items. */
  function PageStart(len: nat, page: int, pageSize: nat): (k: nat)
    requires 1 <= page
    ensures k <= len
  {
    MulNonNegative(page - 1, pageSize);
    Min((page - 1) * pageSize, len)
  }

  /** `paginate(array, page, pageSize)`: the items of one page. */
  function Paginate<T>(a: seq<T>, page: int, pageSize: int): (r: seq<T>)
    ensures 1 <= page && 0 <= pageSize ==>
      r == a[PageStart(|a|, page, pageSize)..PageStart(|a|, page + 1, pageSize)]
    ensures 1 <= page && 0 <= pageSize ==> |r| <= pageSize
    ensures 1 <= page && 0 <= pageSize && |a| <= (page - 1) * pageSize ==> r == []
    ensures page == 0 ==> r == []
  {
    var startIndex := (page - 1) * pageSize;
    PageArithmetic(page, pageSize);
    Slice(a, startIndex, startIndex + pageSize)
  }

  /** Pages 1 to `k`, laid end to end. */
  function FirstPages<T>(a: seq<T>, k: nat, pageSize: int): seq<T> {
    if k == 0 then [] else FirstPages(a, k - 1, pageSize) + Paginate(a, k, pageSize)
  }

  /** Reading pages 1 to `k` in turn reads the list from its start, `pageSize` items per page, without gaps or repeats. */
  lemma {:induction false} FirstPagesArePrefix<T>(a: seq<T>, k: nat, pageSize: nat)
    ensures FirstPages(a, k, pageSize) == a[..Min(|a|, k * pageSize)]
  {
    if k > 0 {
      FirstPagesArePrefix(a, k - 1, pageSize);
      MulMonotone(k - 1, k, pageSize);
      var mid := PageStart(|a|, k, pageSize);
      var end := PageStart(|a|, k + 1, pageSize);
      assert a[..mid] + a[mid..end] == a[..end];
    }
  }

  /** An earlier page ends at or before the place where a later page starts: no item is on two pages. */
  lemma PagesDisjoint(len: nat, p: int, q: int, pageSize: nat)
    requires 1 <= p < q
    ensures PageStart(len, p + 1, pageSize) <= PageStart(len, q, pageSize)
  {
    MulMonotone(p, q - 1, pageSize);
  }

  // ===========================================================================
  // sortArray

  /** The value `item[key]` that `sortArray` compares: a text or a number. */
  datatype SortKey = Text(s: string) | Number(n: int)

  /** JavaScript's `<` on two strings: lexicographic by character code, a proper prefix first. */
  predicate StrLess(x: string, y: string) {
    if y == [] then false
    else if x == [] then true
    else if x[0] != y[0] then x[0] < y[0]
    else StrLess(x[1..], y[1..])
  }

  lemma {:induction false} StrLessAsymmetric(x: string, y: string)
    requires StrLess(x, y)
    ensures !StrLess(y, x)
  {
    if x != [] && x[0] == y[0] {
      StrLessAsymmetric(x[1..], y[1..]);
    }
  }

  lemma StrLessIrreflexive(x: string)
    ensures !StrLess(x, x)
  {
    if StrLess(x, x) {
      StrLessAsymmetric(x, x);
    }
  }

  lemma {:induction false} StrLessTransitive(x: string, y: string, z: string)
    requires StrLess(x, y) && StrLess(y, z)
    ensures StrLess(x, z)
  {
    if x != [] && x[0] == y[0] && y[0] == z[0] {
      StrLessTransitive(x[1..], y[1..], z[1..]);
    }
  }

  lemma {:induction false} StrLessTotal(x: string, y: string)
    ensures x == y || StrLess(x, y) || StrLess(y, x)
  {
    if x != [] && y != [] && x[0] == y[0] {
      StrLessTotal(x[1..], y[1..]);
      if x[1..] == y[1..] {
        assert x == [x[0]] + x[1..] && y == [y[0]] + y[1..];
      }
    }
  }

  /** Both keys are texts or both are numbers. */
  predicate SameKind(x: SortKey, y: SortKey) {
    x.Text? == y.Text?
  }

  /** The key as the comparator sees it: a text is lower-cased. */
  function Normalize(k: SortKey): SortKey {
    if k.Text? then Text(Lower(k.s)) else k
  }

  /** `x < y` on two keys of the same kind. */
  predicate KeyLess(x: SortKey, y: SortKey) {
    match (x, y)
    case (Text(a), Text(b)) => StrLess(a, b)
    case (Number(a), Number(b)) => a < b
    case _ => false
  }

  /** Of two keys of one kind, exactly one of equal, less and greater holds. */
  lemma KeyLessTrichotomy(x: SortKey, y: SortKey)
    requires SameKind(x, y)
    ensures x == y || KeyLess(x, y) || KeyLess(y, x)
    ensures !KeyLess(x, x) && !KeyLess(y, y)
  {
    if x.Text? {
      StrLessTotal(x.s, y.s);
      StrLessIrreflexive(x.s);
      StrLessIrreflexive(y.s);
    }
  }

  /** The comparator that `sortArray` hands to `array.sort`. */
  function Compare(a: SortKey, b: SortKey, direction: string): (c: int)
    requires SameKind(a, b)
    ensures -1 <= c <= 1
    ensures c == 0 <==> Normalize(a) == Normalize(b)
  {
    var aValue := Normalize(a);
    var bValue := Normalize(b);
    KeyLessTrichotomy(aValue, bValue);
    if KeyLess(aValue, bValue) then (if direction == "asc" then -1 else 1)
    else if KeyLess(bValue, aValue) then (if direction == "asc" then 1 else -1)
    else 0
  }

  /** Swapping the arguments negates the comparator's answer. */
  lemma CompareAntisymmetric(a: SortKey, b: SortKey, direction: string)
    requires SameKind(a, b)
    ensures Compare(a, b, direction) == -Compare(b, a, direction)
  {
    var x, y := Normalize(a), Normalize(b);
    if x.Text? && StrLess(x.s, y.s) {
      StrLessAsymmetric(x.s, y.s);
    }
  }

  /** "Comes no later than" under the comparator is transitive. */
  lemma CompareTransitive(a: SortKey, b: SortKey, c: SortKey, direction: string)
    requires SameKind(a, b) && SameKind(b, c)
    requires Compare(a, b, direction) <= 0 && Compare(b, c, direction) <= 0
    ensures Compare(a, c, direction) <= 0
  {
    var x, y, z := Normalize(a), Normalize(b), Normalize(c);
    if x.Text? {
      StrLessTotal(x.s, y.s);
      StrLessTotal(y.s, z.s);
      StrLessTotal(x.s, z.s);
      if StrLess(x.s, y.s) && StrLess(y.s, z.s) { StrLessTransitive(x.s, y.s, z.s); }
      if StrLess(z.s, y.s) && StrLess(y.s, x.s) { StrLessTransitive(z.s, y.s, x.s); }
      if StrLess(x.s, z.s) { StrLessAsymmetric(x.s, z.s); }
      if StrLess(z.s, x.s) { StrLessAsymmetric(z.s, x.s); }
      if StrLess(x.s, y.s) { StrLessAsymmetric(x.s, y.s); }
      if StrLess(y.s, z.s) { StrLessAsymmetric(y.s, z.s); }
    }
  }

  /** `x` may stand before `y` in the sorted array. */
  predicate InOrder<T>(field: T -> SortKey, direction: string, x: T, y: T) {
    SameKind(field(x), field(y)) && Compare(field(x), field(y), direction) <= 0
  }

  /**
   * The order `sortArray` promises: for "asc" the keys never decrease, for any
   * other direction they never increase; texts are compared lower-cased.
   */
  ghost predicate SortedBy<T>(s: seq<T>, field: T -> SortKey, direction: string) {
    forall i, j :: 0 <= i < j < |s| ==>
      if direction == "asc" then !KeyLess(Normalize(field(s[j])), Normalize(field(s[i])))
      else !KeyLess(Normalize(field(s[i])), Normalize(field(s[j])))
  }

  lemma {:induction false} ChainInOrder<T>(s: seq<T>, field: T -> SortKey, direction: string, i: int, j: int)
    requires forall k :: 0 < k < |s| ==> InOrder(field, direction, s[k - 1], s[k])
    requires 0 <= i < j < |s|
    ensures InOrder(field, direction, s[i], s[j])
    decreases j - i
  {
    if i + 1 < j {
      ChainInOrder(s, field, direction, i, j - 1);
      CompareTransitive(field(s[i]), field(s[j - 1]), field(s[j]), direction);
    }
  }

  /** An array whose neighbours are in comparator order is sorted as `sortArray` promises. */
  lemma AdjacentInOrderIsSorted<T>(s: seq<T>, field: T -> SortKey, direction: string)
    requires forall k :: 0 < k < |s| ==> InOrder(field, direction, s[k - 1], s[k])
    ensures SortedBy(s, field, direction)
  {
    forall i, j | 0 <= i < j < |s|
      ensures if direction == "asc" then !KeyLess(Normalize(field(s[j])), Normalize(field(s[i])))
              else !KeyLess(Normalize(field(s[i])), Normalize(field(s[j])))
    {
      ChainInOrder(s, field, direction, i, j);
      var x, y := Normalize(field(s[i])), Normalize(field(s[j]));
      if x.Text? && StrLess(x.s, y.s) { StrLessAsymmetric(x.s, y.s); }
    }
  }

  /** Every item's key has the kind `textual` says: text or number. */
  ghost predicate KeysOfKind<T>(s: seq<T>, field: T -> SortKey, textual: bool) {
    forall k :: 0 <= k < |s| ==> field(s[k]).Text? == textual
  }

  /** Neighbours at positions `lo` to `hi - 1` are in comparator order. */
  ghost predicate NeighboursInOrder<T>(s: seq<T>, field: T -> SortKey, direction: string, lo: int, hi: int) {
    forall k :: lo < k < hi && 0 < k < |s| ==> InOrder(field, direction, s[k - 1], s[k])
  }

  /**
   * `sortArray(array, key, direction)`: sorts the array in place by the key
   * `field` projects out of each item and returns the same array.
   * The keys must all be texts or all be numbers.
   */
  method SortArray<T>(a: array<T>, field: T -> SortKey, direction: string := "asc") returns (sorted: array<T>)
    requires forall i, j :: 0 <= i < j < a.Length ==> SameKind(field(a[i]), field(a[j]))
    modifies a
    ensures sorted == a
    ensures multiset(a[..]) == multiset(old(a[..]))
    ensures SortedBy(a[..], field, direction)
  {
    ghost var textual := a.Length > 0 && field(a[0]).Text?;
    assert forall k :: 0 < k < a.Length ==> SameKind(field(a[0]), field(a[k]));
    var i := 0;
    while i < a.Length
      invariant 0 <= i <= a.Length
      invariant KeysOfKind(a[..], field, textual)
      invariant NeighboursInOrder(a[..], field, direction, 0, i)
      invariant multiset(a[..]) == multiset(old(a[..]))
    {
      InsertIntoSorted(a, i, field, direction, textual);
      i := i + 1;
    }
    AdjacentInOrderIsSorted(a[..], field, direction);
    sorted := a;
  }

  /** One step of the sort: moves `a[i]` left past every greater neighbour, so that `a[..i + 1]` is in order. */
  method InsertIntoSorted<T>(a: array<T>, i: int, field: T -> SortKey, direction: string, ghost textual: bool)
    requires 0 <= i < a.Length
    requires KeysOfKind(a[..], field, textual)
    requires NeighboursInOrder(a[..], field, direction, 0, i)
    modifies a
    ensures KeysOfKind(a[..], field, textual)
    ensures NeighboursInOrder(a[..], field, direction, 0, i + 1)
    ensures multiset(a[..]) == multiset(old(a[..]))
    ensures a[i + 1..] == old(a[i + 1..])
  {
    var j := i;
    while 0 < j && Compare(field(a[j - 1]), field(a[j]), direction) > 0
      invariant 0 <= j <= i
      invariant KeysOfKind(a[..], field, textual)
      invariant NeighboursInOrder(a[..], field, direction, 0, j)
      invariant NeighboursInOrder(a[..], field, direction, j, i + 1)
      invariant 0 < j < i ==> InOrder(field, direction, a[j - 1], a[j + 1])
      invariant multiset(a[..]) == multiset(old(a[..]))
      invariant a[i + 1..] == old(a[i + 1..])
    {
      ghost var before := a[..];
      a[j - 1], a[j] := a[j], a[j - 1];
      SwapStep(before, a[..], field, direction, textual, i, j);
      j := j - 1;
    }
  }

  /** Swapping the out-of-order neighbours at `j - 1` and `j` keeps the inner loop's invariant, one place further left. */
  lemma SwapStep<T>(s: seq<T>, t: seq<T>, field: T -> SortKey, direction: string, textual: bool, i: int, j: int)
    requires 0 < j <= i < |s|
    requires t == s[j - 1 := s[j]][j := s[j - 1]]
    requires KeysOfKind(s, field, textual)
    requires NeighboursInOrder(s, field, direction, 0, j)
    requires NeighboursInOrder(s, field, direction, j, i + 1)
    requires j < i ==> InOrder(field, direction, s[j - 1], s[j + 1])
    requires Compare(field(s[j - 1]), field(s[j]), direction) > 0
    ensures KeysOfKind(t, field, textual)
    ensures NeighboursInOrder(t, field, direction, 0, j - 1)
    ensures NeighboursInOrder(t, field, direction, j - 1, i + 1)
    ensures 0 < j - 1 ==> InOrder(field, direction, t[j - 2], t[j])
    ensures multiset(t) == multiset(s)
  {
    CompareAntisymmetric(field(s[j - 1]), field(s[j]), direction);
    assert InOrder(field, direction, t[j - 1], t[j]);
    forall k | j - 1 < k < i + 1 && 0 < k < |t|
      ensures InOrder(field, direction, t[k - 1], t[k])
    {
      if k > j + 1 {
        assert t[k - 1] == s[k - 1] && t[k] == s[k];
      }
    }
    if 0 < j - 1 {
      assert InOrder(field, direction, s[j - 2], s[j - 1]);
    }
  }

  // ===========================================================================
  // filterArray

  /** The exception `filterArray` can throw. */
  datatype JsError = TypeError

  /** A record: its fields by name. A missing field reads as `undefined`. */
  type Item = map<string, JsValue>

  /** The `[key, value]` pairs of the filters object, in `Object.entries` order. */
  type Filters = seq<(string, JsValue)>

  function Field(item: Item, key: string): JsValue {
    if key in item then item[key] else Undefined
  }

  /** The item satisfies one filter entry: a falsy filter value is ignored; otherwise the field, as a lower-cased string, contains the lower-cased filter value. */
  ghost predicate Satisfies(item: Item, key: string, value: JsValue) {
    !Truthy(value) ||
    (!Nullish(Field(item, key)) && Includes(Lower(ToString(Field(item, key))), Lower(ToString(value))))
  }

  /** The item satisfies every filter entry: it is kept. */
  ghost predicate Keeps(item: Item, filters: Filters) {
    forall i :: 0 <= i < |filters| ==> Satisfies(item, filters[i].0, filters[i].1)
  }

  /**
   * Testing the item throws: the checks reach an entry with a truthy value
   * whose field is `null` or `undefined` (the optional chain yields
   * `undefined`, and calling `includes` on it throws) before any entry fails.
   */
  ghost predicate Throws(item: Item, filters: Filters) {
    exists i :: ThrowsAt(item, filters, i)
  }

  /** Entry `i` is the one that throws: its value is truthy, the item's field is `null` or `undefined`, and every earlier entry passed. */
  ghost predicate ThrowsAt(item: Item, filters: Filters, i: int) {
    0 <= i < |filters| && Truthy(filters[i].1) && Nullish(Field(item, filters[i].0)) &&
    forall j :: 0 <= j < i ==> Satisfies(item, filters[j].0, filters[j].1)
  }

  /** The `every` callback for one entry. */
  function TestEntry(item: Item, key: string, value: JsValue): (r: Result<bool, JsError>)
    ensures r.Err? <==> Truthy(value) && Nullish(Field(item, key))
    ensures r.Ok? ==> (r.value <==> Satisfies(item, key, value))
  {
    if !Truthy(value) then Ok(true)
    else
      var itemValue := Field(item, key);
      if Nullish(itemValue) then Err(TypeError)
      else Ok(Includes(Lower(ToString(itemValue)), Lower(ToString(value))))
  }

  /** `Object.entries(filters).every(...)` for one item: stops at the first entry that fails or throws. */
  function TestItem(item: Item, filters: Filters): (r: Result<bool, JsError>)
    ensures r.Err? <==> Throws(item, filters)
    ensures r.Ok? ==> (r.value <==> Keeps(item, filters))
  {
    if filters == [] then Ok(true)
    else
      EntriesUnfold(item, filters);
      var first := TestEntry(item, filters[0].0, filters[0].1);
      if first.Err? || !first.value then first else TestItem(item, filters[1..])
  }

  /** Keeping and throwing, split into the first filter entry and the others. */
  lemma EntriesUnfold(item: Item, filters: Filters)
    requires filters != []
    ensures Keeps(item, filters) <==>
      Satisfies(item, filters[0].0, filters[0].1) && Keeps(item, filters[1..])
    ensures Throws(item, filters) <==>
      ThrowsAt(item, filters, 0) ||
      (Satisfies(item, filters[0].0, filters[0].1) && Throws(item, filters[1..]))
  {
    var rest := filters[1..];
    assert forall i :: 1 <= i < |filters| ==> filters[i] == rest[i - 1];
    forall i | 0 < i
      ensures ThrowsAt(item, filters, i) <==>
        Satisfies(item, filters[0].0, filters[0].1) && ThrowsAt(item, rest, i - 1)
    {
      ThrowsAtLater(item, filters, i);
    }
    if Throws(item, filters) {
      var i :| ThrowsAt(item, filters, i);
      if 0 < i { assert ThrowsAt(item, rest, i - 1); }
    }
    if Satisfies(item, filters[0].0, filters[0].1) && Throws(item, rest) {
      var i :| ThrowsAt(item, rest, i);
      assert ThrowsAt(item, filters, i + 1);
    }
  }

  lemma ThrowsAtLater(item: Item, filters: Filters, i: int)
    requires 0 < i && filters != []
    ensures ThrowsAt(item, filters, i) <==>
      Satisfies(item, filters[0].0, filters[0].1) && ThrowsAt(item, filters[1..], i - 1)
  {
    if i < |filters| {
      var rest := filters[1..];
      assert filters[i] == rest[i - 1];
      assert forall j :: 1 <= j < i ==> filters[j] == rest[j - 1];
      if Satisfies(item, filters[0].0, filters[0].1) && ThrowsAt(item, rest, i - 1) {
        forall j | 0 <= j < i ensures Satisfies(item, filters[j].0, filters[j].1) {
          if 0 < j { assert filters[j] == rest[j - 1]; }
        }
      }
      if ThrowsAt(item, filters, i) {
        forall j | 0 <= j < i - 1 ensures Satisfies(item, rest[j].0, rest[j].1) {
          assert rest[j] == filters[j + 1];
        }
      }
    }
  }

  /** `s` is `t` with some items left out, the rest in their original order. */
  ghost predicate IsSubsequence<T>(s: seq<T>, t: seq<T>)
    decreases |t|
  {
    if s == [] then true
    else if t == [] then false
    else (s[0] == t[0] && IsSubsequence(s[1..], t[1..])) || IsSubsequence(s, t[1..])
  }

  /** `filterArray(array, filters)`: the items that satisfy every filter entry, or the exception that testing one of them throws. */
  function FilterArray(items: seq<Item>, filters: Filters): (r: Result<seq<Item>, JsError>)
    ensures r.Err? <==> exists i :: 0 <= i < |items| && Throws(items[i], filters)
    ensures r.Ok? ==> IsSubsequence(r.value, items)
    ensures r.Ok? ==> forall x :: multiset(r.value)[x] == if Keeps(x, filters) then multiset(items)[x] else 0
  {
    if items == [] then Ok([])
    else
      ItemsUnfold(items, filters);
      var keep := TestItem(items[0], filters);
      var rest := FilterArray(items[1..], filters);
      if keep.Err? then Err(keep.error)
      else if rest.Err? then Err(rest.error)
      else if keep.value then Ok([items[0]] + rest.value)
      else Ok(rest.value)
  }

  /** Some item throws: the first one, or one of the others. */
  lemma ItemsUnfold(items: seq<Item>, filters: Filters)
    requires items != []
    ensures items == [items[0]] + items[1..]
    ensures (exists i :: 0 <= i < |items| && Throws(items[i], filters)) <==>
      Throws(items[0], filters) || exists i :: 0 <= i < |items[1..]| && Throws(items[1..][i], filters)
  {
    assert forall i :: 1 <= i < |items| ==> items[i] == items[1..][i - 1];
  }

  /** With no filter entry, or only falsy filter values, every item is kept in order. */
  lemma {:induction false} FilterWithoutActiveFilters(items: seq<Item>, filters: Filters)
    requires forall i :: 0 <= i < |filters| ==> !Truthy(filters[i].1)
    ensures FilterArray(items, filters) == Ok(items)
  {
    if items != [] {
      FilterWithoutActiveFilters(items[1..], filters);
      assert Keeps(items[0], filters);
      assert forall i :: !ThrowsAt(items[0], filters, i);
      assert items == [items[0]] + items[1..];
    }
  }

  /**
   * As written, an item that lacks a field named by a truthy filter entry makes
   * `filterArray` throw instead of leaving the item out: the optional chain
   * yields `undefined`, whose `includes` does not exist.
   */
  lemma FilterThrowsOnMissingField()
    ensures FilterArray([map[]], [("title", Str("dune"))]) == Err(TypeError)
  {
  }

  /** The filter as the optional chaining intends it: an item whose field is `null` or `undefined` does not match and is left out. */
  function FilterArrayLenient(items: seq<Item>, filters: Filters): (r: seq<Item>)
    ensures IsSubsequence(r, items)
    ensures forall x :: multiset(r)[x] == if Keeps(x, filters) then multiset(items)[x] else 0
  {
    if items == [] then []
    else
      assert items == [items[0]] + items[1..];
      var rest := FilterArrayLenient(items[1..], filters);
      if MatchesLeniently(items[0], filters) then [items[0]] + rest else rest
  }

  /** Every entry is satisfied, a `null` or `undefined` field counting as a mismatch. */
  function MatchesLeniently(item: Item, filters: Filters): (b: bool)
    ensures b <==> Keeps(item, filters)
  {
    if filters == [] then true
    else
      EntriesUnfold(item, filters);
      var key, value := filters[0].0, filters[0].1;
      var here := !Truthy(value) ||
        (!Nullish(Field(item, key)) && Includes(Lower(ToString(Field(item, key))), Lower(ToString(value))));
      here && MatchesLeniently(item, filters[1..])
  }

  /** Where the written filter does not throw, it agrees with the lenient one. */
  lemma {:induction false} FilterArrayAgreesWhenNoThrow(items: seq<Item>, filters: Filters)
    requires FilterArray(items, filters).Ok?
    ensures FilterArray(items, filters).value == FilterArrayLenient(items, filters)
  {
    if items != [] {
      FilterArrayAgreesWhenNoThrow(items[1..], filters);
    }
  }

  // ===========================================================================
  // Due dates, overdue days and fines

  /** Milliseconds in a day: `1000 * 60 * 60 * 24`. */
  const MsPerDay: int := 1000 * 60 * 60 * 24

  /** `calculateDueDate`'s default loan period. */
  const DefaultLoanPeriodDays: int := 14

  /** `calculateFine`'s default daily fee, 0.50, in cents. */
  const DefaultDailyFeeCents: int := 50

  /** `calculateDueDate(borrowDate, loanPeriodDays)`: the same time of day, `loanPeriodDays` days later. */
  function CalculateDueDate(borrowDate: int, loanPeriodDays: int := DefaultLoanPeriodDays): (dueDate: int)
    ensures (dueDate - borrowDate) % MsPerDay == 0
    ensures (dueDate - borrowDate) / MsPerDay == loanPeriodDays
  {
    borrowDate + loanPeriodDays * MsPerDay
  }

  /** `Math.ceil(n / d)` for a positive divisor. */
  function CeilDiv(n: int, d: int): (q: int)
    requires 0 < d
    ensures (q - 1) * d < n <= q * d
  {
    var k := (-n) / d;
    assert -n == d * k + (-n) % d;
    -k
  }

  /** `calculateOverdueDays(dueDate)` evaluated at time `now`. */
  function CalculateOverdueDays(dueDate: int, now: int): (days: nat)
    ensures days == 0 <==> now <= dueDate
    ensures now > dueDate ==> (days - 1) * MsPerDay < now - dueDate <= days * MsPerDay
  {
    var diffTime := now - dueDate;
    var days := CeilDiv(diffTime, MsPerDay);
    if days < 0 then 0 else days
  }

  /** A whole day more past the due date is exactly one more overdue day. */
  lemma OverdueDaysPerFullDay(dueDate: int, now: int)
    requires dueDate <= now
    ensures CalculateOverdueDays(dueDate, now + MsPerDay) == CalculateOverdueDays(dueDate, now) + 1
  {
  }

  /** Overdue days never go down as time passes. */
  lemma OverdueDaysMonotone(dueDate: int, now: int, later: int)
    requires now <= later
    ensures CalculateOverdueDays(dueDate, now) <= CalculateOverdueDays(dueDate, later)
  {
  }

  /**
   * Days overdue at `returnDate` for a loan of `loanPeriodDays` days taken out at
   * `borrowDate`: the days the book was kept, a started day counting as a whole
   * one, less the loan period, and never below zero.
   */
  lemma OverdueDaysOfLoan(borrowDate: int, loanPeriodDays: int, returnDate: int)
    ensures CalculateOverdueDays(CalculateDueDate(borrowDate, loanPeriodDays), returnDate)
      == var late := CeilDiv(returnDate - borrowDate, MsPerDay) - loanPeriodDays; if late < 0 then 0 else late
  {
  }

  /** `calculateFine(overdueDays, dailyFee)`, with the fee and the result in cents. */
  function CalculateFine(overdueDays: int, dailyFeeCents: int := DefaultDailyFeeCents): (fineCents: int)
    ensures overdueDays == 0 ==> fineCents == 0
    ensures 0 <= overdueDays && 0 <= dailyFeeCents ==> 0 <= fineCents
  {
    MulNonNegative(if overdueDays < 0 then 0 else overdueDays, if dailyFeeCents < 0 then 0 else dailyFeeCents);
    overdueDays * dailyFeeCents
  }

  /** More overdue days never make a smaller fine when the fee is not negative. */
  lemma FineMonotone(days: int, moreDays: int, dailyFeeCents: int)
    requires days <= moreDays && 0 <= dailyFeeCents
    ensures CalculateFine(days, dailyFeeCents) <= CalculateFine(moreDays, dailyFeeCents)
  {
  }

  /** The fine a return at `now` incurs: nothing up to the due date, then one more daily fee for each further whole day. */
  lemma LateFineGrowsDaily(dueDate: int, now: int, dailyFeeCents: int)
    ensures now <= dueDate ==> CalculateFine(CalculateOverdueDays(dueDate, now), dailyFeeCents) == 0
    ensures dueDate <= now ==>
      CalculateFine(CalculateOverdueDays(dueDate, now + MsPerDay), dailyFeeCents)
      == CalculateFine(CalculateOverdueDays(dueDate, now), dailyFeeCents) + dailyFeeCents
  {
  }
}
