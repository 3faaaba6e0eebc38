/**
 * The state the reader window updates in place: the zoom counter and the
 * font's point size, the incremental search position, the text selection,
 * and the list of tag strings in the tag box.
 */
module Reader {
  import Tags

  /** The largest point size zooming in reaches. */
  const MaxPointSize: int := 72

  /** `content[i:]` starts with `text`. */
  predicate OccursAt(content: string, text: string, i: nat) {
    i + |text| <= |content| && content[i..i + |text|] == text
  }

  /** `QString::indexOf(text, from)`: the first occurrence at or after `from`, or -1. */
  function IndexOf(content: string, text: string, from: nat): (index: int)
    ensures index == -1 || (from <= index && OccursAt(content, text, index))
    ensures index == -1 <==> forall j :: from <= j <= |content| ==> !OccursAt(content, text, j)
    ensures index >= 0 ==> forall j :: from <= j < index ==> !OccursAt(content, text, j)
    decreases |content| - from
  {
    if from + |text| > |content| then -1
    else if content[from..from + |text|] == text then from
    else IndexOf(content, text, from + 1)
  }

  /** `QComboBox::findText(x)`: the index of the first item equal to `x`, or -1. */
  function FindItem(items: seq<string>, x: string): (index: int)
    ensures -1 <= index < |items|
    ensures index == -1 <==> x !in items
    ensures index >= 0 ==> items[index] == x
    ensures index >= 0 ==> forall j :: 0 <= j < index ==> items[j] != x
    decreases |items|
  {
    if items == [] then -1
    else if items[0] == x then 0
    else
      var k := FindItem(items[1..], x);
      assert items == [items[0]] + items[1..];
      if k == -1 then -1 else k + 1
  }

  /** The list without its first occurrence of `x` (unchanged when `x` is absent). */
  function RemoveFirst(items: seq<string>, x: string): (rest: seq<string>)
    ensures x !in items ==> rest == items
    ensures x in items ==> |rest| == |items| - 1
    decreases |items|
  {
    if items == [] then []
    else if items[0] == x then items[1..]
    else [items[0]] + RemoveFirst(items[1..], x)
  }

  /** The most-recently-used order: `x` first, then the other items in their order. */
  function MoveToFront(items: seq<string>, x: string): (moved: seq<string>)
    ensures |moved| == if x in items then |items| else |items| + 1
    ensures moved[0] == x
  {
    [x] + RemoveFirst(items, x)
  }

  lemma {:induction false} RemoveFirstAt(items: seq<string>, x: string, k: nat)
    requires k < |items| && items[k] == x
    requires forall j :: 0 <= j < k ==> items[j] != x
    ensures RemoveFirst(items, x) == items[..k] + items[k + 1..]
    decreases k
  {
    if k > 0 {
      RemoveFirstAt(items[1..], x, k - 1);
      assert items[1..][..k - 1] == items[1..k];
      assert items[1..][k..] == items[k + 1..];
      assert items[..k] == [items[0]] + items[1..k];
    }
  }

  lemma {:induction false} RemoveFirstAbsent(items: seq<string>, x: string)
    requires x !in items
    ensures RemoveFirst(items, x) == items
    decreases |items|
  {
    if items != [] {
      RemoveFirstAbsent(items[1..], x);
      assert items == [items[0]] + items[1..];
    }
  }

  /**
   * The three cases of the reorder in `ankiAddFact`, by the index `k` the
   * tag box reports: at 0 the list is unchanged; at `k > 0` the item moves
   * to the front and the others keep their order; absent, it is prepended.
   */
  lemma MoveToFrontCases(items: seq<string>, x: string)
    ensures var k := FindItem(items, x);
      && (k == 0 ==> MoveToFront(items, x) == items)
      && (k > 0 ==> MoveToFront(items, x) == [x] + items[..k] + items[k + 1..])
      && (k == -1 ==> MoveToFront(items, x) == [x] + items)
  {
    var k := FindItem(items, x);
    if k == -1 {
      RemoveFirstAbsent(items, x);
    } else {
      RemoveFirstAt(items, x, k);
      if k == 0 {
        assert items == [x] + items[1..];
      }
    }
  }

  /** Using the same tags twice in a row changes the list only once. */
  lemma MoveToFrontIdempotent(items: seq<string>, x: string)
    ensures MoveToFront(MoveToFront(items, x), x) == MoveToFront(items, x)
  {
  }

  /** No item is lost or duplicated: the list gains `x` only if it was absent. */
  lemma {:induction false} RemoveFirstMultiset(items: seq<string>, x: string)
    ensures x in items ==> multiset(RemoveFirst(items, x)) + multiset{x} == multiset(items)
    ensures x !in items ==> RemoveFirst(items, x) == items
    decreases |items|
  {
    if items != [] {
      RemoveFirstMultiset(items[1..], x);
      assert items == [items[0]] + items[1..];
    }
  }

  class ReaderWindow {
    /** Steps zoomed in (negative: out) since the font was set from the preferences. */
    var zoom: int
    /** The point size of the text view's font. */
    var pointSize: int
    /** The `fontSize` preference the font was set from. */
    var fontSize: int
    /** `state.searchPosition` and `state.searchText`. */
    var searchPosition: nat
    var searchText: string
    /** The text view's cursor: the selection runs from the anchor to the position. */
    var selectionAnchor: nat
    var selectionPosition: nat
    /** The items of the tag box, most recently used first. */
    var tagItems: seq<string>

    /** The font's point size is the preference plus the zoom steps. */
    ghost predicate Valid()
      reads this
    {
      1 <= fontSize && 1 <= pointSize && pointSize == fontSize + zoom
    }

    constructor (fontSize: int, tags: seq<string>)
      requires 1 <= fontSize
      ensures Valid()
      ensures this.fontSize == fontSize && zoom == 0 && pointSize == fontSize
      ensures searchPosition == 0 && searchText == [] && tagItems == tags
      ensures selectionAnchor == 0 && selectionPosition == 0
    {
      this.fontSize := fontSize;
      zoom := 0;
      pointSize := fontSize;
      searchPosition := 0;
      searchText := [];
      selectionAnchor := 0;
      selectionPosition := 0;
      tagItems := tags;
    }

    /** `onActionZoomIn`: one point larger, up to 72. */
    method ZoomIn()
      requires Valid()
      modifies this`zoom, this`pointSize
      ensures Valid() && pointSize - zoom == old(pointSize - zoom)
      ensures old(pointSize) < MaxPointSize ==> pointSize == old(pointSize) + 1 && zoom == old(zoom) + 1
      ensures old(pointSize) >= MaxPointSize ==> pointSize == old(pointSize) && zoom == old(zoom)
    {
      if pointSize < MaxPointSize {
        pointSize := pointSize + 1;
        zoom := zoom + 1;
      }
    }

    /** `onActionZoomOut`: one point smaller, down to 1. */
    method ZoomOut()
      requires Valid()
      modifies this`zoom, this`pointSize
      ensures Valid() && pointSize - zoom == old(pointSize - zoom)
      ensures old(pointSize) > 1 ==> pointSize == old(pointSize) - 1 && zoom == old(zoom) - 1
      ensures old(pointSize) <= 1 ==> pointSize == old(pointSize) && zoom == old(zoom)
    {
      if pointSize > 1 {
        pointSize := pointSize - 1;
        zoom := zoom - 1;
      }
    }

    /** `onActionZoomReset`: back to the preference's size. */
    method ZoomReset()
      requires Valid()
      modifies this`zoom, this`pointSize
      ensures Valid() && pointSize - zoom == old(pointSize - zoom)
      ensures zoom == 0 && pointSize == fontSize
    {
      if zoom != 0 {
        pointSize := pointSize - zoom;
        zoom := 0;
      }
    }

    /**
     * `findText`: search from the last position; a miss from a non-zero
     * position retries once from the start. A hit selects the occurrence
     * and moves the search position past it; a total miss resets the
     * position to 0 and reports "not found".
     */
    method FindText(content: string, text: string) returns (notFound: bool)
      requires Valid()
      modifies this`searchPosition, this`searchText, this`selectionAnchor, this`selectionPosition
      ensures Valid() && searchText == text
      ensures var first := IndexOf(content, text, old(searchPosition));
              var wrapped := IndexOf(content, text, 0);
              var hit := if first >= 0 then first else if old(searchPosition) != 0 then wrapped else -1;
        && (hit >= 0 ==> !notFound && searchPosition == hit + |text| && OccursAt(content, text, hit)
                         && selectionAnchor == hit && selectionPosition == searchPosition)
        && (hit < 0 ==> notFound && searchPosition == 0
                        && selectionAnchor == old(selectionAnchor) && selectionPosition == old(selectionPosition))
      decreases if searchPosition == 0 then 0 else 1
    {
      var index := IndexOf(content, text, searchPosition);
      if index == -1 {
        var wrap := searchPosition != 0;
        searchPosition := 0;
        if wrap {
          notFound := FindText(content, text);
        } else {
          notFound := true;
        }
      } else {
        notFound := false;
        searchPosition := index + |text|;
        selectionAnchor := index;
        selectionPosition := searchPosition;
      }
      searchText := text;
    }

    /**
     * The tag handling of `ankiAddFact`: normalise the tag box's text, and
     * move the normalised string to the front of the tag list.
     */
    method UpdateTags(currentText: string) returns (tagsSplit: seq<string>)
      modifies this`tagItems
      ensures tagsSplit == Tags.SplitTags(currentText)
      ensures tagItems == MoveToFront(old(tagItems), Tags.JoinTags(tagsSplit))
    {
      tagsSplit := Tags.SplitTags(currentText);
      var tagsJoined := Tags.JoinTags(tagsSplit);
      PromoteTag(tagsJoined);
    }

    /** `findText` on the tag box, then `removeItem` and `insertItem(0, …)`. */
    method PromoteTag(tagsJoined: string)
      modifies this`tagItems
      ensures tagItems == MoveToFront(old(tagItems), tagsJoined)
    {
      var tagIndex := FindItem(tagItems, tagsJoined);
      MoveToFrontCases(tagItems, tagsJoined);
      if tagIndex > 0 {
        tagItems := tagItems[..tagIndex] + tagItems[tagIndex + 1..];
      }
      if tagIndex != 0 {
        tagItems := [tagsJoined] + tagItems;
      }
    }
  }
}
