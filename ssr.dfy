/**
 * The page partitioner `ssrDocument`: one pass over the token stream of a
 * page file, with a single context slot (no stack) recording whether the
 * scan is inside a `head` region, a `template` region, or neither. Tokens
 * inside `head` go to the head fragment, tokens inside `template` to the
 * page fragment, everything else is dropped.
 *
 * `Step`, `Scan` and `Partition` are the specification; the method
 * `SsrDocument` is the loop itself, proved to compute `Partition`.
 */
module Ssr {
  import opened Html

  /** The context slot `currentElement`: atom 0, `head` or `template`. */
  datatype Region = Outside | InHead | InTemplate

  /** The scan state between two tokens. */
  datatype State = State(region: Region, page: string, head: string)

  datatype Option<T> = None | Some(value: T)

  /** What `ssrDocument` returns: the page fragment, the head fragment and
      the error (`None` for nil). */
  datatype Document = Document(page: string, head: string, err: Option<ScanError>)

  /** Before the first token: no region, both fragments empty. */
  const INITIAL := State(Outside, "", "")

  /** A start tag whose atom is `head` or `template`: it sets the slot and
      is itself never emitted. A self-closing `<head/>` or `<template/>`, an
      end tag or any other token never opens a region. */
  predicate OpensRegion(t: Token)
    ensures OpensRegion(t) ==> !t.SelfClosingTag? && !t.EndTag? && !t.Error?
  {
    t.StartTag? && (t.atom == HeadAtom || t.atom == TemplateAtom)
  }

  /** The region a `head` or `template` start tag opens. */
  function RegionOf(t: Token): (r: Region)
    requires OpensRegion(t)
    ensures r != Outside
    ensures r == InHead <==> t.atom == HeadAtom
  {
    if t.atom == HeadAtom then InHead else InTemplate
  }

  /** `s` appended to the fragment of the region open in `st`; outside any
      region it is dropped. */
  function Filled(st: State, s: string): (r: State)
    ensures r.region == st.region
    ensures st.region == InHead ==> r.page == st.page && r.head == st.head + s
    ensures st.region == InTemplate ==> r.page == st.page + s && r.head == st.head
    ensures st.region == Outside ==> r == st
  {
    if st.region == InHead then st.(head := st.head + s)
    else if st.region == InTemplate then st.(page := st.page + s)
    else st
  }

  /** One iteration of the loop on a token that is not an error token. */
  function Step(st: State, t: Token): (next: State)
    requires !t.Error?
    // both fragments only grow, and never both at once
    ensures st.page <= next.page && st.head <= next.head
    ensures next.page == st.page || next.head == st.head
    // an opening tag only moves the slot
    ensures OpensRegion(t) ==> next.page == st.page && next.head == st.head && next.region == RegionOf(t)
    // any end tag leaves the slot empty; other tokens leave it alone
    ensures t.EndTag? ==> next.region == Outside
    ensures !OpensRegion(t) && !t.EndTag? ==> next.region == st.region
  {
    if OpensRegion(t) then
      st.(region := RegionOf(t))
    else
      var appended := Filled(st, t.rendered);
      if t.EndTag? && (appended.region == InHead || appended.region == InTemplate) then
        appended.(region := Outside)
      else
        appended
  }

  /** The state after feeding an error-free token sequence to `Step`: the
      loop of `ssrDocument` run over `ts`. */
  function Scan(ts: seq<Token>): (st: State)
    requires ErrorFree(ts)
    ensures ts == [] ==> st == INITIAL
    // the last token's effect on the slot
    ensures ts != [] && OpensRegion(ts[|ts| - 1]) ==> st.region == RegionOf(ts[|ts| - 1])
    ensures ts != [] && ts[|ts| - 1].EndTag? ==> st.region == Outside
  {
    if ts == [] then INITIAL else Step(Scan(ts[..|ts| - 1]), ts[|ts| - 1])
  }

  /** The position of the first error token, or `|ts|` if there is none. */
  function FirstError(ts: seq<Token>): (n: nat)
    ensures n <= |ts|
    ensures ErrorFree(ts[..n])
    ensures n < |ts| ==> ts[n].Error?
  {
    if ts == [] || ts[0].Error? then 0
    else
      var n := 1 + FirstError(ts[1..]);
      assert ts[..n] == [ts[0]] + ts[1..][..n - 1];
      n
  }

  /** What `ssrDocument` returns for the token stream `ts`: the fragments
      accumulated before the first error token; a nil error when that token
      is EOF (or the stream ends), that token's error otherwise. */
  function Partition(ts: seq<Token>): (d: Document)
    ensures d.err != Some(EOF)
    ensures d.err.Some? ==> d.err.value in ErrorsIn(ts)
  {
    var n := FirstError(ts);
    var st := Scan(ts[..n]);
    Document(st.page, st.head,
             if n < |ts| && ts[n].error.Malformed? then Some(ts[n].error) else None)
  }

  /** The errors carried by the error tokens of `ts`. */
  function ErrorsIn(ts: seq<Token>): set<ScanError>
  {
    set i | 0 <= i < |ts| && ts[i].Error? :: ts[i].error
  }

  /** `FirstError` is pinned down by its three properties. */
  lemma FirstErrorAt(ts: seq<Token>, i: nat)
    requires i <= |ts| && ErrorFree(ts[..i])
    requires i < |ts| ==> ts[i].Error?
    ensures FirstError(ts) == i
  {
    var n := FirstError(ts);
    assert forall j :: 0 <= j < n ==> !ts[j].Error? by {
      forall j | 0 <= j < n ensures !ts[j].Error? {
        assert ts[..n][j] == ts[j];
      }
    }
    assert forall j :: 0 <= j < i ==> !ts[j].Error? by {
      forall j | 0 <= j < i ensures !ts[j].Error? {
        assert ts[..i][j] == ts[j];
      }
    }
  }

  /** The partitioner loop of `ssrDocument`. */
  method SsrDocument(tokens: seq<Token>) returns (page: string, head: string, err: Option<ScanError>)
    ensures Document(page, head, err) == Partition(tokens)
  {
    page, head := "", "";
    var current := Outside;
    var i := 0;
    while i < |tokens|
      invariant i <= |tokens|
      invariant ErrorFree(tokens[..i])
      invariant State(current, page, head) == Scan(tokens[..i])
    {
      var token := tokens[i];
      if token.Error? {
        FirstErrorAt(tokens, i);
        if token.error == EOF {
          return page, head, None;
        } else {
          return page, head, Some(token.error);
        }
      }
      assert tokens[..i + 1][..i] == tokens[..i];
      i := i + 1;

      if token.StartTag? {
        if token.atom == HeadAtom || token.atom == TemplateAtom {
          current := if token.atom == HeadAtom then InHead else InTemplate;
          continue;
        }
      }

      if current == InHead {
        head := head + token.rendered;
      } else if current == InTemplate {
        page := page + token.rendered;
      }

      if token.EndTag? {
        if current == InHead || current == InTemplate {
          current := Outside;
        }
      }
    }
    // the tokenizer reports EOF once the input is used up
    assert tokens[..i] == tokens;
    FirstErrorAt(tokens, i);
    err := None;
  }
}
