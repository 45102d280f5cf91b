/**
 * The interest catalog of the protected category page: the category
 * record, the initial catalog, the id-keyed toggle, the selected view and
 * the notice shown after a click.
 */
module Catalog {
  import opened Wrappers

  /** Number of categories generated when no catalog is stored. */
  const CatalogSize: nat := 100

  datatype Category = Category(id: string, name: string, isSelected: bool)

  /**
   * The catalog built on first load from generated `(id, name)` pairs,
   * nothing selected. Ids and names are whatever the generator produced;
   * they are not assumed distinct.
   */
  function Fresh(seeds: seq<(string, string)>): (r: seq<Category>)
    ensures |r| == |seeds|
    ensures forall i :: 0 <= i < |r| ==> r[i].id == seeds[i].0 && r[i].name == seeds[i].1
    ensures forall i :: 0 <= i < |r| ==> !r[i].isSelected
  {
    if seeds == [] then [] else [Category(seeds[0].0, seeds[0].1, false)] + Fresh(seeds[1..])
  }

  /** One step of the toggle's map: flip the flag of a category whose id is `id`. */
  function FlipIfMatch(c: Category, id: string): Category {
    if c.id == id then c.(isSelected := !c.isSelected) else c
  }

  /**
   * `toggleCategory`: every category whose id equals `id` has its flag
   * flipped; every other field and every other category is kept, in place.
   */
  function Toggle(cs: seq<Category>, id: string): (r: seq<Category>)
    ensures |r| == |cs|
    ensures forall i :: 0 <= i < |r| ==> r[i].id == cs[i].id && r[i].name == cs[i].name
    ensures forall i :: 0 <= i < |r| ==>
      r[i].isSelected == (if cs[i].id == id then !cs[i].isSelected else cs[i].isSelected)
  {
    if cs == [] then [] else [FlipIfMatch(cs[0], id)] + Toggle(cs[1..], id)
  }

  /** The ids of a catalog, in catalog order. */
  function Ids(cs: seq<Category>): (r: seq<string>)
    ensures |r| == |cs| && forall i :: 0 <= i < |r| ==> r[i] == cs[i].id
  {
    if cs == [] then [] else [cs[0].id] + Ids(cs[1..])
  }

  /** The ids are pairwise distinct (what the generated uuids are meant to be). */
  predicate DistinctIds(cs: seq<Category>) {
    forall i, j :: 0 <= i < j < |cs| ==> cs[i].id != cs[j].id
  }

  /** Toggling keeps the id sequence, so membership and order never change. */
  lemma ToggleKeepsIds(cs: seq<Category>, id: string)
    ensures Ids(Toggle(cs, id)) == Ids(cs)
  {
  }

  /** An id that no category carries leaves the catalog identical. */
  lemma ToggleUnknownId(cs: seq<Category>, id: string)
    requires id !in Ids(cs)
    ensures Toggle(cs, id) == cs
  {
  }

  /** Toggling the same id twice restores the catalog. */
  lemma ToggleTwice(cs: seq<Category>, id: string)
    ensures Toggle(Toggle(cs, id), id) == cs
  {
  }

  /** `getSelectedCategories`: the filter of the catalog on `isSelected`. */
  function Selected(cs: seq<Category>): (r: seq<Category>)
    ensures |r| <= |cs|
    ensures forall c :: c in r <==> c in cs && c.isSelected
  {
    if cs == [] then []
    else if cs[0].isSelected then [cs[0]] + Selected(cs[1..])
    else Selected(cs[1..])
  }

  /**
   * The selected view distributes over concatenation, so it keeps catalog
   * order: with the singleton cases this pins it down as the order-preserving
   * filter.
   */
  lemma {:induction false} SelectedAppend(a: seq<Category>, b: seq<Category>)
    ensures Selected(a + b) == Selected(a) + Selected(b)
  {
    if a == [] {
      assert a + b == b;
    } else {
      assert (a + b)[1..] == a[1..] + b;
      SelectedAppend(a[1..], b);
    }
  }

  /** A freshly generated catalog has nothing selected. */
  lemma {:induction false} FreshSelectsNothing(seeds: seq<(string, string)>)
    ensures Selected(Fresh(seeds)) == []
  {
    if seeds != [] {
      FreshSelectsNothing(seeds[1..]);
    }
  }

  /**
   * In a catalog where nothing is selected and ids are distinct, toggling
   * the id of entry `k` selects exactly that entry.
   */
  lemma {:induction false} ToggleOneOfNone(cs: seq<Category>, k: nat)
    requires k < |cs| && DistinctIds(cs)
    requires forall i :: 0 <= i < |cs| ==> !cs[i].isSelected
    ensures Selected(Toggle(cs, cs[k].id)) == [cs[k].(isSelected := true)]
  {
    var id := cs[k].id;
    var r := Toggle(cs, id);
    assert r == r[..k] + [r[k]] + r[k + 1..];
    SelectedAppend(r[..k] + [r[k]], r[k + 1..]);
    SelectedAppend(r[..k], [r[k]]);
    NoneSelected(r[..k]);
    NoneSelected(r[k + 1..]);
    assert r[k] == cs[k].(isSelected := true);
  }

  /** A catalog without selected entries has an empty selected view. */
  lemma {:induction false} NoneSelected(cs: seq<Category>)
    requires forall i :: 0 <= i < |cs| ==> !cs[i].isSelected
    ensures Selected(cs) == []
  {
    if cs != [] {
      NoneSelected(cs[1..]);
    }
  }

  /** The position of the first category with id `id`, or `|cs|` when there is none. */
  function FirstIndexOf(cs: seq<Category>, id: string): (k: nat)
    ensures k <= |cs|
    ensures forall j :: 0 <= j < k ==> cs[j].id != id
    ensures k < |cs| ==> cs[k].id == id
  {
    if cs == [] || cs[0].id == id then 0 else 1 + FirstIndexOf(cs[1..], id)
  }

  /** `categories.find((c) => c.id === id)`: the first category with that id. */
  function FindById(cs: seq<Category>, id: string): (r: Option<Category>)
    ensures r.None? <==> id !in Ids(cs)
    ensures r.Some? ==> r.value.id == id && r.value == cs[FirstIndexOf(cs, id)]
  {
    var k := FirstIndexOf(cs, id);
    assert k == |cs| ==> forall j :: 0 <= j < |cs| ==> Ids(cs)[j] != id;
    if k < |cs| then Some(cs[k]) else None
  }

  /** The two toasts of a click, carrying the category name. */
  datatype Notice = Added(name: string) | Removed(name: string)

  /** The toast text for a notice. */
  function NoticeText(n: Notice): string {
    match n
    case Added(name) => "Added " + name + " to interests"
    case Removed(name) => "Removed " + name + " from interests"
  }

  /**
   * `handleCategoryClick`'s notice, chosen from the category as it was
   * before the toggle: none for an unknown id, "Removed" for a selected one,
   * "Added" otherwise.
   */
  function ClickNotice(cs: seq<Category>, id: string): (r: Option<Notice>)
    ensures r.None? <==> id !in Ids(cs)
    ensures r.Some? ==> FindById(cs, id).Some? && r.value.name == FindById(cs, id).value.name
    ensures r.Some? ==> (r.value.Removed? <==> FindById(cs, id).value.isSelected)
  {
    match FindById(cs, id)
    case None => None
    case Some(c) => Some(if c.isSelected then Removed(c.name) else Added(c.name))
  }

  /** After the toggle, the first category with the id is the old one flipped. */
  lemma {:induction false} FindAfterToggle(cs: seq<Category>, id: string)
    requires id in Ids(cs)
    ensures FindById(Toggle(cs, id), id) == Some(FindById(cs, id).value.(isSelected := !FindById(cs, id).value.isSelected))
  {
    assert Ids(cs) == [cs[0].id] + Ids(cs[1..]);
    assert Toggle(cs, id)[1..] == Toggle(cs[1..], id);
    if cs[0].id != id {
      FindAfterToggle(cs[1..], id);
    }
  }

  /**
   * The notice reports the new state of the clicked category: "Removed"
   * exactly when the category it names is unselected after the toggle.
   */
  lemma NoticeMatchesNewState(cs: seq<Category>, id: string)
    requires id in Ids(cs)
    ensures FindById(Toggle(cs, id), id).Some?
    ensures ClickNotice(cs, id).value.Removed? <==> !FindById(Toggle(cs, id), id).value.isSelected
    ensures ClickNotice(cs, id).value.name == FindById(Toggle(cs, id), id).value.name
  {
    FindAfterToggle(cs, id);
  }
}
