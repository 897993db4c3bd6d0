/** The page abstraction exchanged by the buffer pool and the heap file: an id, the
    slot-occupancy view of the page's bytes, the dirty marker and the before-image. */
module Pages {
  import opened Wrappers
  import opened DbTypes

  /** The contents of one slot: the fields of the tuple stored there. */
  type Row = seq<Field>

  /** The slot-occupancy view of a page: `None` marks an empty slot. */
  type Image = seq<Option<Row>>

  /** A heap page as the buffer pool sees it. `dirtier` is the transaction that last
      dirtied it (Java's `isDirty()`, null when clean); `beforeImage` is the image the
      log records as the page's state before the update. */
  datatype Page = Page(id: PageId, slots: Image, dirtier: Option<TransactionId>, beforeImage: Image)

  /** The image of a page whose bytes are all zero (`HeapPage.createEmptyPageData`). */
  function EmptyImage(n: nat): (img: Image)
    ensures |img| == n
    ensures forall i | 0 <= i < n :: img[i] == None
  {
    seq(n, _ => None)
  }

  /** A page parsed from bytes read from a file: clean, and its before-image is what was read. */
  function FromDisk(pid: PageId, img: Image): (p: Page)
    ensures p.id == pid && p.slots == img && p.dirtier == None && p.beforeImage == img
  {
    Page(pid, img, None, img)
  }

  /** Number of empty slots (`getNumEmptySlots`). */
  function NumEmptySlots(img: Image): (n: nat)
    ensures n <= |img|
    ensures n > 0 <==> None in img
  {
    if img == [] then 0
    else
      assert img == [img[0]] + img[1..];
      (if img[0] == None then 1 else 0) + NumEmptySlots(img[1..])
  }

  /** The lowest-numbered empty slot. */
  function FirstEmpty(img: Image): (i: nat)
    requires None in img
    ensures i < |img| && img[i] == None
    ensures forall j | 0 <= j < i :: img[j] != None
  {
    if img[0] == None then 0
    else
      assert None in img[1..] by { assert img == [img[0]] + img[1..]; }
      1 + FirstEmpty(img[1..])
  }

  /** `HeapPage.insertTuple`: the row goes into the lowest empty slot; a full page raises. */
  function InsertRow(img: Image, row: Row): (r: Option<Image>)
    ensures r.Some? <==> NumEmptySlots(img) > 0
  {
    if None in img then Some(img[FirstEmpty(img) := Some(row)]) else None
  }

  /** The page with `row` stored in its lowest empty slot (`HeapPage.insertTuple` on a page
      with room); nothing else about the page changes. */
  function Filled(p: Page, row: Row): (q: Page)
    requires NumEmptySlots(p.slots) > 0
    ensures q.id == p.id && q.dirtier == p.dirtier && q.beforeImage == p.beforeImage
    ensures Some(row) in q.slots && NumEmptySlots(q.slots) + 1 == NumEmptySlots(p.slots)
  {
    InsertRowFirstFit(p.slots, row);
    p.(slots := InsertRow(p.slots, row).value)
  }

  /** `HeapPage.isSlotUsed`; a slot number outside the page is reported unused. */
  predicate IsSlotUsed(img: Image, i: int) {
    0 <= i < |img| && img[i].Some?
  }

  /** `HeapPage.deleteTuple`: the slot becomes empty. */
  function DeleteSlot(img: Image, i: int): (r: Image)
    requires IsSlotUsed(img, i)
    ensures |r| == |img| && !IsSlotUsed(r, i)
    ensures forall j | 0 <= j < |img| && j != i :: r[j] == img[j]
  {
    img[i := None]
  }

  /** Replacing one slot changes the empty-slot count by the change in that slot alone. */
  lemma {:induction false} NumEmptySlotsUpdate(img: Image, i: nat, x: Option<Row>)
    requires i < |img|
    ensures NumEmptySlots(img[i := x]) + (if img[i] == None then 1 else 0)
         == NumEmptySlots(img) + (if x == None then 1 else 0)
  {
    if i > 0 {
      assert img[i := x][1..] == img[1..][i - 1 := x];
      NumEmptySlotsUpdate(img[1..], i - 1, x);
    } else {
      assert img[i := x][1..] == img[1..];
    }
  }

  /** Insertion is first-fit: it fills exactly the lowest empty slot, every earlier slot is
      occupied, every other slot is unchanged, and one empty slot fewer remains. */
  lemma InsertRowFirstFit(img: Image, row: Row)
    requires NumEmptySlots(img) > 0
    ensures var r := InsertRow(img, row).value; var k := FirstEmpty(img);
      |r| == |img| && r[k] == Some(row) &&
      (forall j | 0 <= j < k :: img[j].Some?) &&
      (forall j | 0 <= j < |img| && j != k :: r[j] == img[j]) &&
      NumEmptySlots(r) + 1 == NumEmptySlots(img)
  {
    NumEmptySlotsUpdate(img, FirstEmpty(img), Some(row));
  }

  /** Deleting a used slot frees exactly one slot. */
  lemma DeleteSlotFreesOne(img: Image, i: int)
    requires IsSlotUsed(img, i)
    ensures NumEmptySlots(DeleteSlot(img, i)) == NumEmptySlots(img) + 1
  {
    NumEmptySlotsUpdate(img, i, None);
  }
}
