/**
 * The keyboard handler's scrolling rule: `getListOffset` measures an entry's
 * top within the option list by adding up `offsetTop` along its ancestors, and
 * the list's `scrollTop` is moved just enough to bring the entry into view.
 */
module Scrolling {

  /**
   * The layout of one rendered entry: its own `offsetTop`, the `offsetTop` of
   * each ancestor below the option list (its group, if any), and its
   * `offsetHeight`.
   */
  datatype Layout = Layout(offsetTop: int, ancestorTops: seq<int>, height: int)

  function Sum(xs: seq<int>): int
  {
    if xs == [] then 0 else Sum(xs[..|xs| - 1]) + xs[|xs| - 1]
  }

  /** Offsets measured along two stretches of the ancestor chain add up. */
  lemma {:induction false} SumConcat(a: seq<int>, b: seq<int>)
    ensures Sum(a + b) == Sum(a) + Sum(b)
    decreases |b|
  {
    if b == [] {
      assert a + b == a;
    } else {
      assert (a + b)[..|a + b| - 1] == a + b[..|b| - 1];
      SumConcat(a, b[..|b| - 1]);
    }
  }

  /** The top of an entry within the list: its own offset plus those of its ancestors. */
  function ListOffset(l: Layout): int
  {
    l.offsetTop + Sum(l.ancestorTops)
  }

  /**
   * `getListOffset(element, viewport)`: starts from the entry's `offsetTop` and
   * adds the `offsetTop` of each ancestor until the viewport is reached.
   */
  method GetListOffset(l: Layout) returns (offset: int)
    ensures offset == ListOffset(l)
  {
    offset := l.offsetTop;
    for i := 0 to |l.ancestorTops|
      invariant offset == l.offsetTop + Sum(l.ancestorTops[..i])
    {
      assert l.ancestorTops[..i + 1][..i] == l.ancestorTops[..i];
      offset := offset + l.ancestorTops[i];
    }
    assert l.ancestorTops[..|l.ancestorTops|] == l.ancestorTops;
  }

  /**
   * The new `scrollTop` of a list of height `listHeight` scrolled to `scrollTop`
   * once the entry spanning `[top, top + height)` is current: when the entry
   * ends below the view the list scrolls so that it ends at the bottom, when
   * it starts above the view so that it starts at the top, and otherwise it
   * stays. An entry that fits in the list is then entirely in view, an entry
   * already in view moves nothing, and the list moves no further than needed.
   */
  function ScrollTopFor(top: int, height: int, listHeight: int, scrollTop: int): (r: int)
    ensures 0 <= height <= listHeight ==> r <= top && top + height <= r + listHeight
    ensures scrollTop <= top && top + height <= scrollTop + listHeight ==> r == scrollTop
    ensures r != scrollTop ==> r + listHeight == top + height || r == top
  {
    var bottom := top + height;
    if bottom > listHeight + scrollTop then bottom - listHeight
    else if top < scrollTop then top
    else scrollTop
  }
}
