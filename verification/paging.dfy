/** The shapes shared by every paginated GraphQL call (github.rs): page
    information, a page of nodes, and the answer a request receives.

    The remote server is modelled as the finite sequence of answers it gives
    to successive requests: the k-th request made by a walk receives the
    k-th answer. A walk that asks for more answers than the sequence holds
    gets `Unanswered`; that error exists only in the model. */
module Paging {
  import opened Wrappers

  /** `github::PageInfo`. */
  datatype PageInfo = PageInfo(hasNextPage: bool, endCursor: Option<string>)

  /** `github::Paged<A>`, with the `edges[..].node` wrappers removed. */
  datatype Page<A> = Page(pageInfo: PageInfo, edges: seq<A>)

  /** Why a request produced no page: the POST failed, the body did not
      decode (the body is kept for the message), or no answer was scripted. */
  datatype FetchError = Transport | Decode(body: string) | Unanswered

  /** What the server gives back for one request. */
  datatype Answer<D> = Answered(data: D) | Failed(error: FetchError)

  /** The `Some(c) if info.has_next_page` guard every pager shares:
      a cursor to continue from and the server's word that more exists. */
  predicate HasNext(info: PageInfo)
  {
    info.endCursor.Some? && info.hasNextPage
  }

  /** The pagination argument of a query: empty on the first page, else
      the previous page's cursor as `after`. */
  function AfterClause(page: Option<string>): string
  {
    match page
    case None => ""
    case Some(p) => ", after: \\\"" + p + "\\\""
  }

  /** Inserting `a` between `h` and `t` splits `h + t` at `|h|`. */
  lemma Splice(h: string, a: string, t: string)
    ensures h + a + t == (h + t)[..|h|] + a + (h + t)[|h|..]
  {
    assert (h + t)[..|h|] == h;
    assert (h + t)[|h|..] == t;
  }

  /** A splice right after the marker `s`: in `o + s + t` the marker ends
      at `|o + s|`, and inserting `a` there gives `o + s + a + t`. */
  lemma SpliceAfter(o: string, s: string, a: string, t: string)
    ensures var first := o + s + t;
            var k := |o + s|;
            && |s| <= k <= |first|
            && first[k - |s|..k] == s
            && o + s + a + t == first[..k] + a + first[k..]
  {
    var first := o + s + t;
    var k := |o + s|;
    assert first[k - |s|..k] == s;
    Splice(o + s, a, t);
  }

  /** `Vec::last`. */
  function Last<A>(xs: seq<A>): (r: Option<A>)
    ensures r.None? <==> |xs| == 0
    ensures r.Some? ==> r.value == xs[|xs| - 1]
  {
    if |xs| == 0 then None else Some(xs[|xs| - 1])
  }

  /** The nodes of `pages`, page by page, in order. */
  function Flatten<A>(pages: seq<Page<A>>): seq<A>
  {
    if |pages| == 0 then [] else pages[0].edges + Flatten(pages[1..])
  }

  lemma {:induction false} FlattenAppend<A>(xs: seq<Page<A>>, ys: seq<Page<A>>)
    ensures Flatten(xs + ys) == Flatten(xs) + Flatten(ys)
  {
    if |xs| == 0 {
      assert xs + ys == ys;
    } else {
      assert (xs + ys)[1..] == xs[1..] + ys;
      FlattenAppend(xs[1..], ys);
    }
  }

  /** A page's nodes appear in the flattening of any page list holding it. */
  lemma {:induction false} FlattenContains<A>(pages: seq<Page<A>>, i: nat, x: A)
    requires i < |pages| && x in pages[i].edges
    ensures x in Flatten(pages)
  {
    if i > 0 {
      FlattenContains(pages[1..], i - 1, x);
    }
  }
}
