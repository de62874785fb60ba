/**
 * The image split into pages: `[image[i:i+256] for i in range(0, len(image), 256)]`.
 */
module Paging {
  import opened Wire

  function Min(a: int, b: int): int {
    if a <= b then a else b
  }

  /** Python's slice `s[i:j]` for `0 <= i <= j`: both ends are clamped to `len(s)`. */
  function Slice(s: seq<Byte>, i: nat, j: nat): seq<Byte>
    requires i <= j
  {
    s[Min(i, |s|)..Min(j, |s|)]
  }

  /**
   * Number of values `range(0, length, PAGE_SIZE)` yields: the ceiling of
   * `length / PAGE_SIZE`.
   */
  function PageCount(length: nat): (count: nat)
    ensures length == 0 ==> count == 0
    ensures length > 0 ==> PAGE_SIZE * (count - 1) < length <= PAGE_SIZE * count
  {
    var count := (length + PAGE_SIZE - 1) / PAGE_SIZE;
    assert length + PAGE_SIZE - 1 == PAGE_SIZE * count + (length + PAGE_SIZE - 1) % PAGE_SIZE;
    count
  }

  /**
   * Page `k` is the slice of the image starting at `PAGE_SIZE * k`: there
   * are `PageCount` of them, none empty, all full but the last.
   */
  function Pages(image: seq<Byte>): (pages: seq<seq<Byte>>)
    ensures |pages| == PageCount(|image|)
    ensures forall k :: 0 <= k < |pages| ==> 1 <= |pages[k]| <= PAGE_SIZE
    ensures forall k :: 0 <= k < |pages| - 1 ==> |pages[k]| == PAGE_SIZE
  {
    var pages := seq(PageCount(|image|), k requires 0 <= k => Slice(image, PAGE_SIZE * k, PAGE_SIZE * k + PAGE_SIZE));
    assert forall k :: 0 <= k < |pages| ==> 1 <= |pages[k]| <= PAGE_SIZE && (k < |pages| - 1 ==> |pages[k]| == PAGE_SIZE) by {
      forall k | 0 <= k < |pages|
        ensures 1 <= |pages[k]| <= PAGE_SIZE && (k < |pages| - 1 ==> |pages[k]| == PAGE_SIZE)
      {
        PageStartsInImage(|image|, k);
        PageStartsInImage(|image|, k + 1);
      }
    }
    pages
  }

  /** The pages joined back together, in order. */
  function Concat(pages: seq<seq<Byte>>): seq<Byte>
  {
    if pages == [] then [] else Concat(pages[..|pages| - 1]) + pages[|pages| - 1]
  }

  /** The sum of the lengths of the pages before page `k`: where page `k` goes. */
  function Offset(pages: seq<seq<Byte>>, k: nat): nat
    requires k <= |pages|
  {
    |Concat(pages[..k])|
  }

  /** Page `k` starts inside the image: `k < PageCount(length)` iff `PAGE_SIZE * k < length`. */
  lemma PageStartsInImage(length: nat, k: nat)
    ensures k < PageCount(length) <==> PAGE_SIZE * k < length
  {
    if k < PageCount(length) {
      assert PAGE_SIZE * k <= PAGE_SIZE * (PageCount(length) - 1);
    } else {
      assert PAGE_SIZE * k >= PAGE_SIZE * PageCount(length);
    }
  }

  /**
   * There are ceil(length / 256) pages; every page is the 256 bytes at
   * `256 * k` except the last, which holds the 1 to 256 bytes that remain.
   */
  lemma PagesShape(image: seq<Byte>, k: nat)
    requires k < |Pages(image)|
    ensures |Pages(image)| == PageCount(|image|)
    ensures PAGE_SIZE * k < |image|
    ensures Pages(image)[k] == image[PAGE_SIZE * k .. PAGE_SIZE * k + |Pages(image)[k]|]
    ensures k < |Pages(image)| - 1 ==> |Pages(image)[k]| == PAGE_SIZE
    ensures k == |Pages(image)| - 1 ==> 1 <= |Pages(image)[k]| <= PAGE_SIZE
    ensures k == |Pages(image)| - 1 ==> PAGE_SIZE * k + |Pages(image)[k]| == |image|
  {
    var n := |image|;
    PageStartsInImage(n, k);
    PageStartsInImage(n, k + 1);
  }

  lemma {:induction false} ConcatPagesPrefix(image: seq<Byte>, k: nat)
    requires k <= |Pages(image)|
    ensures Concat(Pages(image)[..k]) == image[..Min(PAGE_SIZE * k, |image|)]
  {
    if k > 0 {
      var pages := Pages(image);
      ConcatPagesPrefix(image, k - 1);
      PagesShape(image, k - 1);
      assert pages[..k][..k - 1] == pages[..k - 1];
      PageStartsInImage(|image|, k - 1);
      assert image[..Min(PAGE_SIZE * k, |image|)]
          == image[..PAGE_SIZE * (k - 1)] + image[PAGE_SIZE * (k - 1) .. Min(PAGE_SIZE * k, |image|)];
    }
  }

  /** Joining the pages gives back exactly the image. */
  lemma ConcatPages(image: seq<Byte>)
    ensures Concat(Pages(image)) == image
  {
    var pages := Pages(image);
    ConcatPagesPrefix(image, |pages|);
    assert pages[..|pages|] == pages;
  }

  /**
   * Page `k` is placed at `256 * k`, the sum of the lengths of the pages
   * before it; after the last page the address is the image's length.
   */
  lemma PageOffsets(image: seq<Byte>, k: nat)
    requires k <= |Pages(image)|
    ensures k < |Pages(image)| ==> Offset(Pages(image), k) == PAGE_SIZE * k
    ensures k == |Pages(image)| ==> Offset(Pages(image), k) == |image|
  {
    ConcatPagesPrefix(image, k);
    if k < |Pages(image)| {
      PageStartsInImage(|image|, k);
    }
  }

  /** Page addresses strictly increase. */
  lemma PageOffsetsIncrease(image: seq<Byte>, j: nat, k: nat)
    requires j < k < |Pages(image)|
    ensures Offset(Pages(image), j) < Offset(Pages(image), k)
  {
    PageOffsets(image, j);
    PageOffsets(image, k);
  }

  /** Byte `i` of page `k` sits at `Offset(pages, k) + i` of the joined pages. */
  lemma {:induction false} ConcatAt(pages: seq<seq<Byte>>, k: nat, i: nat)
    requires k < |pages| && i < |pages[k]|
    ensures Offset(pages, k) + i < |Concat(pages)|
    ensures Concat(pages)[Offset(pages, k) + i] == pages[k][i]
  {
    var n := |pages| - 1;
    assert pages[..n + 1] == pages;
    if k < n {
      ConcatAt(pages[..n], k, i);
      assert pages[..n][..k] == pages[..k];
    } else {
      assert pages[..k] == pages[..n];
    }
  }

  /** A page's offset does not depend on the pages after it. */
  lemma OffsetOfPrefix(pages: seq<seq<Byte>>, n: nat, k: nat)
    requires k <= n <= |pages|
    ensures Offset(pages[..n], k) == Offset(pages, k)
  {
    assert pages[..n][..k] == pages[..k];
  }

  /** Offsets grow by each page's length, and never pass the end of the joined pages. */
  lemma OffsetStep(pages: seq<seq<Byte>>, k: nat)
    requires k < |pages|
    ensures Offset(pages, k + 1) == Offset(pages, k) + |pages[k]|
    ensures Offset(pages, k + 1) <= |Concat(pages)|
  {
    assert pages[..k + 1][..k] == pages[..k];
    OffsetBound(pages, k + 1);
  }

  lemma {:induction false} OffsetBound(pages: seq<seq<Byte>>, k: nat)
    requires k <= |pages|
    ensures Offset(pages, k) <= |Concat(pages)|
  {
    if k < |pages| {
      var n := |pages| - 1;
      assert pages[..n + 1] == pages;
      OffsetBound(pages[..n], Min(k, n));
      assert pages[..n][..Min(k, n)] == pages[..Min(k, n)];
      if k == n {
        assert pages[..k] == pages[..n];
      }
    } else {
      assert pages[..k] == pages;
    }
  }

  /** A 600-byte image is sent as pages of 256, 256 and 88 bytes at 0, 256 and 512. */
  lemma SixHundredBytes(image: seq<Byte>)
    requires |image| == 600
    ensures |Pages(image)| == 3
    ensures |Pages(image)[0]| == 256 && |Pages(image)[1]| == 256 && |Pages(image)[2]| == 88
    ensures Offset(Pages(image), 0) == 0 && Offset(Pages(image), 1) == 256 && Offset(Pages(image), 2) == 512
    ensures Offset(Pages(image), 3) == 600
  {
    PagesShape(image, 0);
    PagesShape(image, 1);
    PagesShape(image, 2);
    PageOffsets(image, 0);
    PageOffsets(image, 1);
    PageOffsets(image, 2);
    PageOffsets(image, 3);
  }
}
