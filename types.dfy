/** The records of the checklist: items, categories and the settings object. */
module Types {
  import opened Common
  import opened Order

  /**
    One checklist entry. `isHeader` is false where the catalog leaves the flag
    out; a header item only introduces a section and is never tracked.
    (`labelText` is the source's `label`, a reserved word here.)
  */
  datatype Item = Item(
    id: string,
    labelText: string,
    description: Option<string>,
    rate: Option<string>,
    source: Option<string>,
    isHeader: bool)

  /** One tab of the checklist: an ordered list of items. */
  datatype Category = Category(id: string, title: string, iconUrl: Option<string>, items: seq<Item>)

  /** The persisted settings object; its one flag says whether "3rd age" items count. */
  datatype AppSettings = AppSettings(countThirdAge: bool)

  /** The sort selector of the checklist: catalog order, A-Z or Z-A. */
  datatype SortBy = Default | Az | Za

  /** The category whose totals drop "3rd age" items when the flag is off. */
  const CollectionLogId: string := "mem_collection_log"

  /** The category shown as diary regions with tiers. */
  const DiariesId: string := "mem_diaries"

  /** The header that starts out expanded. */
  const DefaultExpandedSection: string := "clog_header_clues_beginner"

  /** A trackable item with only an id and a label, as most catalog entries are. */
  function PlainItem(id: string, labelText: string): Item
  {
    Item(id, labelText, None, None, None, false)
  }

  /** A section header with an id and a label. */
  function HeaderItem(id: string, labelText: string): Item
  {
    Item(id, labelText, None, None, None, true)
  }

  /** `items.some(item => item.isHeader)`. */
  predicate HasHeaders(items: seq<Item>)
  {
    exists i :: 0 <= i < |items| && items[i].isHeader
  }

  /** The ids of the items, in order (`items.map(item => item.id)`). */
  function Ids(items: seq<Item>): (r: seq<string>)
    ensures |r| == |items|
    ensures forall k :: 0 <= k < |items| ==> r[k] == items[k].id
    ensures forall x :: x in items ==> x.id in r
    ensures forall id :: id in r ==> exists x :: x in items && x.id == id
  {
    var r := seq(|items|, k requires 0 <= k < |items| => items[k].id);
    assert forall id :: id in r ==> exists x :: x in items && x.id == id by {
      forall id | id in r
        ensures exists x :: x in items && x.id == id
      {
        var k :| 0 <= k < |r| && r[k] == id;
        assert items[k] in items;
      }
    }
    r
  }

  /** `items.filter(item => !item.isHeader)`. */
  function NonHeaders(items: seq<Item>): (r: seq<Item>)
    ensures |r| <= |items|
    ensures forall x :: x in r <==> x in items && !x.isHeader
    ensures SubseqOf(r, items)
    decreases |items|
  {
    if |items| == 0 then []
    else
      var last := items[|items| - 1];
      var rest := NonHeaders(items[..|items| - 1]);
      SubseqStep(rest, items, !last.isHeader);
      rest + (if last.isHeader then [] else [last])
  }

  /** `items.filter(item => !item.isHeader).map(item => item.id)`. */
  function NonHeaderIds(items: seq<Item>): (r: seq<string>)
    ensures |r| <= |items|
    ensures forall x :: x in r <==> exists k :: 0 <= k < |items| && !items[k].isHeader && items[k].id == x
    decreases |items|
  {
    if |items| == 0 then []
    else
      var init, last := items[..|items| - 1], items[|items| - 1];
      assert forall k :: 0 <= k < |init| ==> init[k] == items[k];
      NonHeaderIds(init) + (if last.isHeader then [] else [last.id])
  }
}

