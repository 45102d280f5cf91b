/**
 * The page arithmetic of the protected category page: the page count, the
 * visible slice, the row of page buttons and the navigation buttons.
 */
module Pagination {

  /** `itemsPerPage`. */
  const PageSize: nat := 6
  /** The page the view opens on (`useState<number>(4)`). */
  const InitialPage: int := 4
  /** At most this many numbered page buttons are rendered. */
  const MaxPageButtons: nat := 7

  function Min(a: int, b: int): int { if a <= b then a else b }
  function Max(a: int, b: int): int { if a <= b then b else a }

  /**
   * `Math.ceil(n / itemsPerPage)`: the least page count whose pages hold
   * all `n` items.
   */
  function TotalPages(n: nat): (t: nat)
    ensures t * PageSize >= n
    ensures t > 0 ==> (t - 1) * PageSize < n
    ensures t == 0 <==> n == 0
  {
    (n + PageSize - 1) / PageSize
  }

  /**
   * `Array.prototype.slice(start, end)` as ECMAScript defines it for integer
   * arguments: a negative bound counts from the end (floored at 0), a bound
   * past the end is cut to the length, and crossed bounds give [].
   */
  function JsSlice<T>(s: seq<T>, start: int, end: int): (r: seq<T>)
    ensures |r| <= |s|
    ensures 0 <= start <= end ==> r == s[Min(start, |s|)..Min(end, |s|)]
    ensures start <= end < 0 ==> r == s[Max(|s| + start, 0)..Max(|s| + end, 0)]
    ensures end <= start && (start < 0 <==> end < 0) ==> r == []
  {
    var from := if start < 0 then Max(|s| + start, 0) else Min(start, |s|);
    var to := if end < 0 then Max(|s| + end, 0) else Min(end, |s|);
    if from < to then s[from..to] else []
  }

  /**
   * `categories.slice(startIndex, endIndex)` for the 1-based page `p`: at
   * most 6 items for any `p`, and from page 1 up the window
   * `[(p-1)*6, p*6)` cut to the list.
   */
  function Page<T>(s: seq<T>, p: int): (r: seq<T>)
    ensures |r| <= PageSize
    ensures p >= 1 ==> r == s[Min((p - 1) * PageSize, |s|)..Min(p * PageSize, |s|)]
  {
    var startIndex := (p - 1) * PageSize;
    JsSlice(s, startIndex, startIndex + PageSize)
  }

  /** A page from 1 up is the window `[(p-1)*6, p*6)` cut to the list, so at most 6 items. */
  lemma PageWindow<T>(s: seq<T>, p: int)
    requires p >= 1
    ensures Min((p - 1) * PageSize, |s|) <= Min(p * PageSize, |s|)
    ensures Page(s, p) == s[Min((p - 1) * PageSize, |s|)..Min(p * PageSize, |s|)]
    ensures |Page(s, p)| <= PageSize
  {
  }

  /** Page 0 is `slice(-6, 0)`, which is empty whatever the list. */
  lemma PageZeroIsEmpty<T>(s: seq<T>)
    ensures Page(s, 0) == []
  {
  }

  /** Every page past the last one is empty. */
  lemma PageBeyondLastIsEmpty<T>(s: seq<T>, p: int)
    requires p > TotalPages(|s|)
    ensures Page(s, p) == []
  {
  }

  /** Pages `1..k` laid end to end. */
  function PagesUpTo<T>(s: seq<T>, k: nat): seq<T> {
    if k == 0 then [] else PagesUpTo(s, k - 1) + Page(s, k)
  }

  /** Pages `1..k` together are exactly the first `min(6k, |s|)` items, in order. */
  lemma {:induction false} PagesUpToIsPrefix<T>(s: seq<T>, k: nat)
    ensures PagesUpTo(s, k) == s[..Min(k * PageSize, |s|)]
  {
    if k > 0 {
      PagesUpToIsPrefix(s, k - 1);
      PageWindow(s, k);
      var a, b := Min((k - 1) * PageSize, |s|), Min(k * PageSize, |s|);
      assert s[..a] + s[a..b] == s[..b];
    }
  }

  /** Pages `1..totalPages` partition the list: together they are the list, with no gap or overlap. */
  lemma PagesCoverList<T>(s: seq<T>)
    ensures PagesUpTo(s, TotalPages(|s|)) == s
  {
    PagesUpToIsPrefix(s, TotalPages(|s|));
  }

  /** Item `i` is on page `i / 6 + 1`, at position `i % 6`, and that page exists. */
  lemma ItemOnItsPage<T>(s: seq<T>, i: nat)
    requires i < |s|
    ensures 1 <= i / PageSize + 1 <= TotalPages(|s|)
    ensures i % PageSize < |Page(s, i / PageSize + 1)|
    ensures Page(s, i / PageSize + 1)[i % PageSize] == s[i]
  {
  }

  /** A page button: a page number or the inert "..." marker. */
  datatype PageItem = Num(n: int) | Ellipsis

  /** The buttons rendered for `t` pages: `1..min(7, t)`, and "..." once there are more than 7. */
  predicate Rendered(item: PageItem, t: nat) {
    match item
    case Num(n) => 1 <= n <= Min(MaxPageButtons, t)
    case Ellipsis => t > MaxPageButtons
  }

  /**
   * `getPaginationArray`: the numbers `1..min(7, t)` in ascending order,
   * then a single "..." exactly when `t > 7`.
   */
  method PaginationArray(t: nat) returns (range: seq<PageItem>)
    ensures |range| == Min(MaxPageButtons, t) + (if t > MaxPageButtons then 1 else 0)
    ensures forall i :: 0 <= i < Min(MaxPageButtons, t) ==> range[i] == Num(i + 1)
    ensures t > MaxPageButtons ==> range[|range| - 1] == Ellipsis
    ensures forall item :: item in range <==> Rendered(item, t)
  {
    range := [];
    var i := 1;
    while i <= Min(MaxPageButtons, t)
      invariant 1 <= i <= Min(MaxPageButtons, t) + 1
      invariant |range| == i - 1
      invariant forall k :: 0 <= k < i - 1 ==> range[k] == Num(k + 1)
    {
      range := range + [Num(i)];
      i := i + 1;
    }
    if t > MaxPageButtons {
      range := range + [Ellipsis];
    }
    forall item | item in range ensures Rendered(item, t) {
      var k :| 0 <= k < |range| && range[k] == item;
    }
    forall item | Rendered(item, t) ensures item in range {
      if item.Num? {
        assert range[item.n - 1] == item;
      } else {
        assert range[|range| - 1] == item;
      }
    }
  }

  /** The five things a click on the navigation row can do. */
  datatype Move = First | Previous | Next | Last | Jump(item: PageItem)

  /**
   * The page after a click on page `p` of `t`. "<<" and "<" are disabled
   * on page 1 and ">" and ">>" on page `t`; a disabled button does nothing.
   * Otherwise: first sets 1, previous `max(1, p - 1)`, next `min(t, p + 1)`,
   * last `t`, and a page button its number while "..." does nothing.
   */
  function Step(p: int, t: nat, m: Move): (r: int)
    ensures m.Jump? && m.item.Num? ==> r == m.item.n
    ensures 1 <= p <= t && Clickable(m, t) ==> 1 <= r <= t
  {
    match m
    case First => if p == 1 then p else 1
    case Previous => if p == 1 then p else Max(1, p - 1)
    case Next => if p == t then p else Min(t, p + 1)
    case Last => if p == t then p else t
    case Jump(item) => if item.Num? then item.n else p
  }

  /** The clamps make the disabled guards redundant: each guarded click equals its bare setter. */
  lemma DisabledButtonsChangeNothing(p: int, t: nat)
    ensures Step(p, t, First) == 1 && Step(p, t, Previous) == Max(1, p - 1)
    ensures Step(p, t, Next) == Min(t, p + 1) && Step(p, t, Last) == t
    ensures Step(p, t, Jump(Ellipsis)) == p
    ensures forall n :: Step(p, t, Jump(Num(n))) == n
  {
  }

  /** The page after a run of clicks. */
  function Run(p: int, t: nat, ms: seq<Move>): int
    decreases ms
  {
    if ms == [] then p else Run(Step(p, t, ms[0]), t, ms[1..])
  }

  /** Only rendered buttons can be clicked. */
  predicate Clickable(m: Move, t: nat) {
    m.Jump? ==> Rendered(m.item, t)
  }

  /**
   * From a page in `1..t`, any run of clicks on rendered buttons stays in
   * `1..t`. With the 100-item catalog `t` is 17, so the initial page 4 is one
   * such start.
   */
  lemma {:induction false} RunStaysInRange(p: int, t: nat, ms: seq<Move>)
    requires 1 <= p <= t
    requires forall k :: 0 <= k < |ms| ==> Clickable(ms[k], t)
    ensures 1 <= Run(p, t, ms) <= t
    decreases ms
  {
    if ms != [] {
      assert Clickable(ms[0], t);
      forall k | 0 <= k < |ms[1..]| ensures Clickable(ms[1..][k], t) {
        assert ms[1..][k] == ms[k + 1];
      }
      RunStaysInRange(Step(p, t, ms[0]), t, ms[1..]);
    }
  }

  /** The 100 generated categories fill 17 pages and the view opens on one of them. */
  lemma InitialPageIsValid()
    ensures TotalPages(100) == 17
    ensures 1 <= InitialPage <= TotalPages(100)
  {
  }
}
