/**
 * `createList`: the walk over the zip directory that keeps the image entries,
 * in directory order, as in-memory items.
 */
module Archive {
  import opened Strings

  /** One entry of the zip directory: its path, its declared size and its content. */
  datatype Entry = Entry(name: string, size: nat, data: string)

  /** One catalog item: the entry's content, size and name, copied unchanged. */
  datatype Item = Item(data: string, size: nat, name: string)

  /** The metadata directory macOS adds to archives it creates. */
  const MacMetadataPrefix: string := "__MACOSX/"

  /** The item `createList` builds from an entry it keeps. */
  function ToItem(e: Entry): (it: Item)
    ensures it.name == e.name && it.size == e.size && it.data == e.data
  {
    Item(e.data, e.size, e.name)
  }

  /** The five `endsWith` tests of the filter, case-sensitively. */
  function HasImageExtension(name: string): (b: bool)
    ensures b <==>
              IsSuffix(".jpg", name) || IsSuffix(".png", name) || IsSuffix(".jpeg", name)
              || IsSuffix(".gif", name) || IsSuffix(".svg", name)
  {
    EndsWith(name, ".jpg")
    || EndsWith(name, ".png")
    || EndsWith(name, ".jpeg")
    || EndsWith(name, ".gif")
    || EndsWith(name, ".svg")
  }

  /**
   * The filter as the code writes it: an image extension, AND a name longer
   * than 9 characters, AND a first 9 characters other than `__MACOSX/`.
   */
  function Accepts(name: string): (b: bool)
    ensures b <==>
              HasImageExtension(name)
              && |name| > |MacMetadataPrefix|
              && !IsPrefix(MacMetadataPrefix, name)
  {
    assert |name| >= |MacMetadataPrefix| ==>
             name == name[..|MacMetadataPrefix|] + name[|MacMetadataPrefix|..];
    HasImageExtension(name)
    && |name| > |MacMetadataPrefix|
    && name[..|MacMetadataPrefix|] != MacMetadataPrefix
  }

  /** The items kept from `entries`, in directory order. */
  function Selected(entries: seq<Entry>): (r: seq<Item>)
    ensures |r| <= |entries|
    ensures forall k :: 0 <= k < |r| ==> Accepts(r[k].name)
  {
    if |entries| == 0 then
      []
    else
      var last := entries[|entries| - 1];
      Selected(entries[..|entries| - 1]) + (if Accepts(last.name) then [ToItem(last)] else [])
  }

  /** Whether `createList` keeps an entry: the filter applied to its name. */
  function Kept(e: Entry): bool
  {
    Accepts(e.name)
  }

  /**
   * The directory positions of the entries `keep` holds for, in increasing order;
   * the catalog's positions are `Positions(entries, Kept)`.
   */
  function Positions(entries: seq<Entry>, keep: Entry -> bool): (idx: seq<nat>)
    ensures forall k :: 0 <= k < |idx| ==> idx[k] < |entries| && keep(entries[idx[k]])
    ensures forall k, l :: 0 <= k < l < |idx| ==> idx[k] < idx[l]
    ensures forall i :: 0 <= i < |entries| && keep(entries[i]) ==> i in idx
  {
    if |entries| == 0 then
      []
    else
      var n := |entries| - 1;
      var prefix := entries[..n];
      var rest := Positions(prefix, keep);
      assert forall k :: 0 <= k < |rest| ==> entries[rest[k]] == prefix[rest[k]];
      if keep(entries[n]) then rest + [n] else rest
  }

  /**
   * The catalog is exactly the kept entries, taken in directory order and copied
   * unchanged: nothing is sorted, reordered, duplicated or altered.
   */
  lemma {:induction false} SelectedFollowsPositions(entries: seq<Entry>)
    ensures |Selected(entries)| == |Positions(entries, Kept)|
    ensures forall k :: 0 <= k < |Selected(entries)| ==>
              Selected(entries)[k] == ToItem(entries[Positions(entries, Kept)[k]])
  {
    if |entries| > 0 {
      var n := |entries| - 1;
      var prefix := entries[..n];
      SelectedFollowsPositions(prefix);
      var items, idx := Selected(prefix), Positions(prefix, Kept);
      var items', idx' := Selected(entries), Positions(entries, Kept);
      if Kept(entries[n]) {
        assert items' == items + [ToItem(entries[n])];
        assert idx' == idx + [n];
      } else {
        assert items' == items;
        assert idx' == idx;
      }
      forall k | 0 <= k < |items'| ensures items'[k] == ToItem(entries[idx'[k]]) {
        if k < |items| {
          assert entries[idx[k]] == prefix[idx[k]];
        }
      }
    }
  }

  /** An entry's item is in the catalog exactly when the filter accepts the entry's name. */
  lemma {:induction false} SelectedMembership(entries: seq<Entry>, e: Entry)
    requires e in entries
    ensures ToItem(e) in Selected(entries) <==> Accepts(e.name)
  {
    var i :| 0 <= i < |entries| && entries[i] == e;
    if Accepts(e.name) {
      SelectedFollowsPositions(entries);
      var idx := Positions(entries, Kept);
      var k :| 0 <= k < |idx| && idx[k] == i;
      assert Selected(entries)[k] == ToItem(e);
    }
  }

  /** Every name of 9 characters or fewer is dropped, `photo.jpg` included. */
  lemma ShortNamesDropped(name: string)
    requires |name| <= |MacMetadataPrefix|
    ensures !Accepts(name)
  {
  }

  /** `photo1.jpg` (10 characters) is kept, while `photo.jpg` (9 characters) is not. */
  lemma LengthBoundary()
    ensures Accepts("photo1.jpg")
    ensures !Accepts("photo.jpg")
  {
    assert "photo1.jpg"[6..] == ".jpg";
    assert "photo1.jpg"[..9][0] != MacMetadataPrefix[0];
  }

  /** An image inside the macOS metadata directory is dropped. */
  lemma MacMetadataDropped()
    ensures !Accepts("__MACOSX/photo1.jpg")
  {
  }

  /** The extension test is case-sensitive: `PHOTO1.JPG` is not an image name. */
  lemma UpperCaseExtensionDropped()
    ensures !Accepts("PHOTO1.JPG")
  {
  }

  /** An archive with no image-named entry yields an empty catalog. */
  lemma {:induction false} NoImagesSelectsNothing(entries: seq<Entry>)
    requires forall i :: 0 <= i < |entries| ==> !HasImageExtension(entries[i].name)
    ensures Selected(entries) == []
  {
    if |entries| > 0 {
      NoImagesSelectsNothing(entries[..|entries| - 1]);
    }
  }

  /**
   * The loop of `createList`: one pass over the directory, appending the item of
   * every accepted entry.
   */
  method CreateList(entries: seq<Entry>) returns (list: seq<Item>)
    ensures list == Selected(entries)
  {
    list := [];
    var i := 0;
    while i < |entries|
      invariant 0 <= i <= |entries|
      invariant list == Selected(entries[..i])
    {
      assert entries[..i + 1][..i] == entries[..i];
      if Accepts(entries[i].name) {
        list := list + [ToItem(entries[i])];
      }
      i := i + 1;
    }
    assert entries[..i] == entries;
  }
}
