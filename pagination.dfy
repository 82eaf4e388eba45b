/**
 * Repository enumeration bookkeeping. The listing endpoint is abstracted
 * as a total function from a page number to the page it returns; the
 * provider's GetRepositories fetches page 1, derives the page count from
 * its `size`, and then fetches once per remaining page.
 */
module Pagination {

  datatype Repository = Repository(
    Scm: string, UUID: string, Description: string, Fullname: string, IsPrivate: string, Name: string)

  /** One decoded listing response (the `Repositories` struct without its unused EndPoint). */
  datatype RepositoryPage = RepositoryPage(
    Previous: string, Pagelen: int, Values: seq<Repository>, Size: int, Page: int)

  /** The `pagelen` requested from the listing endpoint. */
  const PageLen: nat := 100

  /** Go's integer division, which truncates toward zero (Dafny's `/` is Euclidean). */
  function GoQuotient(a: int, b: int): int
    requires b != 0
  {
    var q := (if a < 0 then -a else a) / (if b < 0 then -b else b);
    if (a < 0) == (b < 0) then q else -q
  }

  /** `int(math.Ceil(float64((size / 100) + 1)))`: the ceiling of an integer is itself. */
  function PageCount(size: int): int {
    GoQuotient(size, PageLen) + 1
  }

  /**
   * Fetches made: page 1, then one per loop turn `i := 2; i <= n`. For a
   * non-negative size that is size/100 + 1, so an empty account needs one
   * fetch and no loop turn, and the fetched pages cover `size` entries.
   * Every size below 100 gives one fetch: a negative size makes n at most 1,
   * because Go's division truncates toward zero.
   */
  function FetchCount(size: int): (n: nat)
    ensures n >= 1
    ensures size >= 0 ==> n == size / 100 + 1
    ensures size >= 0 ==> (n - 1) * PageLen <= size < n * PageLen
    ensures size < 100 ==> n == 1
  {
    if PageCount(size) >= 1 then PageCount(size) else 1
  }

  function Repeat<T>(s: seq<T>, k: nat): seq<T> {
    if k == 0 then [] else Repeat(s, k - 1) + s
  }

  /** The concatenated values of pages 1 to k, in page order. */
  function PagesUpTo(fetch: int -> RepositoryPage, k: int): seq<Repository>
    decreases k
  {
    if k <= 0 then [] else PagesUpTo(fetch, k - 1) + fetch(k).Values
  }

  function Min(a: int, b: int): int { if a <= b then a else b }

  /** Page `p` (from 1) of a listing split into pages of PageLen entries. */
  function PageOf(listing: seq<Repository>, p: int): seq<Repository>
    requires p >= 1
  {
    listing[Min((p - 1) * PageLen, |listing|)..Min(p * PageLen, |listing|)]
  }

  /**
   * The endpoint serves `listing`: every page is its slice of the listing
   * and reports the listing's length as `size`.
   */
  ghost predicate Serves(fetch: int -> RepositoryPage, listing: seq<Repository>) {
    forall p :: p >= 1 ==> fetch(p).Values == PageOf(listing, p) && fetch(p).Size == |listing|
  }

  lemma {:induction false} RepeatLength<T>(s: seq<T>, k: nat)
    ensures |Repeat(s, k)| == k * |s|
  {
    if k > 0 {
      RepeatLength(s, k - 1);
    }
  }

  /** Fetching pages 1 to k of a served listing yields its first k * PageLen entries. */
  lemma {:induction false} PagesOfListing(fetch: int -> RepositoryPage, listing: seq<Repository>, k: nat)
    requires Serves(fetch, listing)
    ensures PagesUpTo(fetch, k) == listing[..Min(k * PageLen, |listing|)]
  {
    if k > 0 {
      PagesOfListing(fetch, listing, k - 1);
      assert fetch(k).Values == PageOf(listing, k);
    }
  }

  /**
   * Requesting pages 1 to size/100 + 1 of a served listing yields the whole
   * listing, in order, with nothing repeated or dropped.
   */
  lemma PagedEnumerationComplete(fetch: int -> RepositoryPage, listing: seq<Repository>)
    requires Serves(fetch, listing)
    ensures PagesUpTo(fetch, FetchCount(fetch(1).Size)) == listing
  {
    assert fetch(1).Size == |listing|;
    PagesOfListing(fetch, listing, FetchCount(|listing|));
  }

  /**
   * As written, every fetch asks for page 1, so the result is page 1
   * repeated size/100 + 1 times. For a served listing that is the listing
   * exactly when it has fewer than 100 entries; from 100 entries on, page 1
   * is duplicated and every later page is missing.
   */
  lemma AsWrittenEnumeration(fetch: int -> RepositoryPage, listing: seq<Repository>)
    requires Serves(fetch, listing)
    ensures Repeat(fetch(1).Values, FetchCount(fetch(1).Size)) == listing <==> |listing| < 100
    ensures |listing| >= 100 ==>
      |Repeat(fetch(1).Values, FetchCount(fetch(1).Size))| == FetchCount(|listing|) * PageLen > |listing|
  {
    var first := fetch(1).Values;
    assert first == PageOf(listing, 1);
    assert fetch(1).Size == |listing|;
    var n := FetchCount(|listing|);
    RepeatLength(first, n);
    if |listing| < 100 {
      assert n == 1;
      assert first == listing;
      assert Repeat(first, 1) == [] + first;
    } else {
      assert |first| == 100;
      assert |Repeat(first, n)| == n * 100;
    }
  }
}
