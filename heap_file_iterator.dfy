/** `HeapFileIterator`: the tuples of a heap file, page after page, fetched read-only through
    the buffer pool. */
module HeapFileIterators {
  import opened Wrappers
  import opened DbTypes

  /** The outcome of `getPageIterator` for one page: the page arrived and these are its tuples;
      `getPage` raised `TransactionAbortedException` or `DbException`, which is caught and
      printed, leaving a null page iterator; or an exception escapes: `NullPointerException`
      from `page.iterator()` when `getPage` returned null (the file could not read the page),
      or one `getPage` raised that is not caught, such as `NoSuchElementException` for a
      table the catalog does not know. */
  datatype PageFetch = Fetched(tuples: seq<Tuple>) | Caught | Raised(error: DbError)

  /** The page iterator a fetch that does not raise leaves behind. */
  function IteratorOf(f: PageFetch): Option<seq<Tuple>> {
    if f.Fetched? then Some(f.tuples) else None
  }

  /** The tuples of pages `j`, `j + 1`, ... in page order, up to the first page whose fetch did
      not deliver a page: a null page iterator ends the iteration, a null page raises. */
  function Tail(pages: seq<PageFetch>, j: nat): seq<Tuple>
    decreases |pages| - j
  {
    if j >= |pages| then []
    else match pages[j]
      case Fetched(ts) => ts + Tail(pages, j + 1)
      case _ => []
  }

  /** The exception iterating from page `j` on meets, if any: the one the first fetch that does
      not deliver a page raises, when it raises. */
  function RaisedAhead(pages: seq<PageFetch>, j: nat): Option<DbError>
    decreases |pages| - j
  {
    if j >= |pages| then None
    else match pages[j]
      case Fetched(_) => RaisedAhead(pages, j + 1)
      case Caught => None
      case Raised(e) => Some(e)
  }

  /** The concatenation of a sequence of tuple sequences. */
  function Concat(ps: seq<seq<Tuple>>): seq<Tuple> {
    if ps == [] then [] else ps[0] + Concat(ps[1..])
  }

  /** When every page arrives, the tuples from page `j` on are the pages' tuples concatenated
      in page order, and nothing raises. */
  lemma {:induction false} TailFetched(pages: seq<PageFetch>, ps: seq<seq<Tuple>>, j: nat)
    requires |ps| == |pages| && j <= |pages|
    requires forall i | 0 <= i < |pages| :: pages[i] == Fetched(ps[i])
    ensures Tail(pages, j) == Concat(ps[j..]) && RaisedAhead(pages, j) == None
    decreases |pages| - j
  {
    if j < |pages| {
      TailFetched(pages, ps, j + 1);
      assert ps[j..][1..] == ps[j + 1..];
    }
  }

  class HeapFileIterator {
    const tid: TransactionId
    const tableId: int
    /** The outcome of fetching each page `0 .. numPages - 1` of the table. */
    const pages: seq<PageFetch>
    /** The outcome of fetching page 0 of a table with no pages, which `open` does too. */
    const beyond: PageFetch
    var pagePos: nat
    /** `pageIterator`: the tuples of the current page not yet returned, or null. */
    var pageIterator: Option<seq<Tuple>>

    /** `numPages`, fixed when the iterator is created. */
    function NumPages(): nat {
      |pages|
    }

    /** The outcome of fetching page `i`. */
    function Fetch(i: nat): PageFetch {
      if i < |pages| then pages[i] else beyond
    }

    /** The tuples the iterator has still to return: the rest of the current page, then the
        following pages; nothing once the position has passed the last page or the page
        iterator is null. */
    ghost function Remaining(): seq<Tuple>
      reads this
    {
      if pagePos >= |pages| || pageIterator.None? then []
      else pageIterator.value + Tail(pages, pagePos + 1)
    }

    /** The exception iterating on meets once the remaining tuples are returned, if any. */
    ghost function Pending(): Option<DbError>
      reads this
    {
      if pagePos < |pages| && pageIterator.Some? then RaisedAhead(pages, pagePos + 1) else None
    }

    /** The state `hasNext` leaves behind when it returns: past the last page, at a null page
        iterator, or at a page iterator with a tuple to return. */
    ghost predicate Settled()
      reads this
    {
      pagePos >= |pages| || pageIterator.None? || pageIterator.value != []
    }

    /** A new iterator is not open: its page iterator is null, so it returns nothing. */
    constructor (tid: TransactionId, tableId: int, pages: seq<PageFetch>, beyond: PageFetch)
      ensures this.tid == tid && this.tableId == tableId && this.pages == pages && this.beyond == beyond
      ensures pagePos == 0 && pageIterator == None && Remaining() == [] && Pending() == None
    {
      this.tid := tid;
      this.tableId := tableId;
      this.pages := pages;
      this.beyond := beyond;
      pagePos := 0;
      pageIterator := None;
    }

    /** `open`: back to page 0, which is fetched (even for a file with no pages). A fetch that
        raises lets the exception escape and leaves the page iterator as it was; otherwise the
        iterator will return every page's tuples in page order, up to the first page that is
        not delivered, and raises there exactly when that fetch raises. */
    method Open() returns (r: Outcome<DbError>)
      modifies this
      ensures pagePos == 0
      ensures Fetch(0).Raised? ==> r == Fail(Fetch(0).error) && pageIterator == old(pageIterator)
      ensures !Fetch(0).Raised? ==> (
        r == Pass && pageIterator == IteratorOf(Fetch(0)) &&
        Remaining() == Tail(pages, 0) && Pending() == RaisedAhead(pages, 0))
    {
      pagePos := 0;
      var f := Fetch(pagePos);
      if f.Raised? {
        return Fail(f.error);
      }
      pageIterator := IteratorOf(f);
      return Pass;
    }

    /** `hasNext`: skips exhausted pages, fetching the next one, until a tuple is available, the
        page iterator is null, or the last page is passed. It raises exactly when no tuple
        remains before a fetch that raises, with that fetch's exception; it then stands at that
        page with the exhausted page iterator, so a further call goes on after it. Otherwise it
        returns no tuple, so what remains to be returned is unchanged; the position never
        moves beyond `numPages`; and once settled, a second call changes nothing. */
    method HasNext() returns (r: Result<bool, DbError>)
      modifies this
      ensures r.Err? <==> old(Remaining()) == [] && old(Pending()).Some?
      ensures r.Err? ==> (r.error == old(Pending()).value && pagePos < |pages| && pages[pagePos] == Raised(r.error) &&
        pageIterator == Some([]) && Remaining() == Tail(pages, pagePos + 1))
      ensures r.Ok? ==> ((r.value <==> Remaining() != []) &&
        Remaining() == old(Remaining()) && Pending() == old(Pending()) && Settled())
      ensures r == Ok(true) ==> pagePos < |pages| && pageIterator.Some? && pageIterator.value != []
      ensures old(pagePos) <= pagePos && (pagePos <= |pages| || pagePos == old(pagePos))
      ensures old(Settled()) ==> r.Ok? && pagePos == old(pagePos) && pageIterator == old(pageIterator)
    {
      ghost var rest, pending, start, settled := Remaining(), Pending(), pagePos, Settled();
      while pagePos < |pages|
        invariant Remaining() == rest && Pending() == pending
        invariant start <= pagePos && (pagePos <= |pages| || pagePos == start)
        invariant settled ==> pagePos == start && pageIterator == old(pageIterator)
        decreases |pages| - pagePos
      {
        if pageIterator.None? {
          return Ok(false);
        }
        if pageIterator.value != [] {
          return Ok(true);
        }
        pagePos := pagePos + 1;
        if pagePos >= |pages| {
          return Ok(false);
        }
        var f := Fetch(pagePos);
        if f.Raised? {
          return Err(f.error);
        }
        pageIterator := IteratorOf(f);
      }
      return Ok(false);
    }

    /** `next`: the first remaining tuple, which is then consumed; when nothing remains, the
        exception `hasNext` meets, else `NoSuchElementException`. */
    method Next() returns (r: Result<Tuple, DbError>)
      modifies this
      ensures old(Remaining()) != [] ==> (
        r == Ok(old(Remaining())[0]) && Remaining() == old(Remaining())[1..] && Pending() == old(Pending()))
      ensures old(Remaining()) == [] && old(Pending()) == None ==> r == Err(NoSuchElement) && Remaining() == []
      ensures old(Remaining()) == [] && old(Pending()).Some? ==> r == Err(old(Pending()).value)
    {
      ghost var rest, pending := Remaining(), Pending();
      var has := HasNext();
      if has.Err? {
        return Err(has.error);
      }
      if !has.value {
        return Err(NoSuchElement);
      }
      var ts := pageIterator.value;
      assert rest == ts + Tail(pages, pagePos + 1);
      pageIterator := Some(ts[1..]);
      assert rest[1..] == ts[1..] + Tail(pages, pagePos + 1);
      assert Pending() == pending;
      return Ok(ts[0]);
    }

    /** `rewind` is `open`. */
    method Rewind() returns (r: Outcome<DbError>)
      modifies this
      ensures pagePos == 0
      ensures Fetch(0).Raised? ==> r == Fail(Fetch(0).error) && pageIterator == old(pageIterator)
      ensures !Fetch(0).Raised? ==> (
        r == Pass && pageIterator == IteratorOf(Fetch(0)) &&
        Remaining() == Tail(pages, 0) && Pending() == RaisedAhead(pages, 0))
    {
      r := Open();
    }

    /** `close`: the page iterator becomes null, so nothing remains and nothing raises until
        the next `open`. */
    method Close()
      modifies this
      ensures pagePos == old(pagePos) && pageIterator == None && Remaining() == [] && Pending() == None
    {
      pageIterator := None;
    }
  }
}
