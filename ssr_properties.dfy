/**
 * What the partitioner guarantees, stated over the specification in `Ssr`:
 * which token lands in which fragment (against an independent description
 * of the context slot), that both fragments only grow, how the scan ends,
 * and what a flat `head` or `template` block yields.
 */
module SsrProperties {
  import opened Html
  import opened Ssr

  // ---------------------------------------------------------------------
  // Appending one token

  lemma ScanSnoc(ts: seq<Token>, t: Token)
    requires ErrorFree(ts) && !t.Error?
    ensures ErrorFree(ts + [t])
    ensures Scan(ts + [t]) == Step(Scan(ts), t)
  {
    assert (ts + [t])[..|ts|] == ts;
  }

  /** A `head` or `template` start tag is never emitted; it only moves the
      slot, overwriting whatever region was open (regions do not nest). */
  lemma OpeningTagOnlyMovesSlot(ts: seq<Token>, t: Token)
    requires ErrorFree(ts) && OpensRegion(t)
    ensures ErrorFree(ts + [t])
    ensures Scan(ts + [t]) == Scan(ts).(region := RegionOf(t))
  {
    ScanSnoc(ts, t);
  }

  /** Any end tag inside a region is appended to that region's fragment and
      then empties the slot, whatever its tag name. */
  lemma EndTagClosesRegion(ts: seq<Token>, t: Token)
    requires ErrorFree(ts) && t.EndTag?
    ensures ErrorFree(ts + [t])
    ensures Scan(ts + [t]).region == Outside
    ensures Scan(ts).region == InHead ==>
              Scan(ts + [t]) == State(Outside, Scan(ts).page, Scan(ts).head + t.rendered)
    ensures Scan(ts).region == InTemplate ==>
              Scan(ts + [t]) == State(Outside, Scan(ts).page + t.rendered, Scan(ts).head)
    ensures Scan(ts).region == Outside ==> Scan(ts + [t]) == Scan(ts)
  {
    ScanSnoc(ts, t);
  }

  /** A start tag with any other name never changes the slot. */
  lemma OtherStartTagKeepsSlot(ts: seq<Token>, t: Token)
    requires ErrorFree(ts) && t.StartTag? && !OpensRegion(t)
    ensures ErrorFree(ts + [t])
    ensures Scan(ts + [t]).region == Scan(ts).region
  {
    ScanSnoc(ts, t);
  }

  // ---------------------------------------------------------------------
  // The slot, described without running the loop

  /** The position of the last `head`/`template` start tag in `ts`, or -1. */
  function LastOpening(ts: seq<Token>): (k: int)
    ensures -1 <= k < |ts| && (k >= 0 ==> OpensRegion(ts[k]))
    ensures forall j :: k < j < |ts| ==> !OpensRegion(ts[j])
  {
    if ts == [] then -1
    else if OpensRegion(ts[|ts| - 1]) then |ts| - 1
    else LastOpening(ts[..|ts| - 1])
  }

  /** Some end tag follows position `k` in `ts`. */
  predicate ClosedAfter(ts: seq<Token>, k: int)
    requires -1 <= k
  {
    exists j :: k < j < |ts| && ts[j].EndTag?
  }

  /** The region open after `ts`: the one opened by the last `head` or
      `template` start tag, unless an end tag (of any name) came after it. */
  function OpenRegion(ts: seq<Token>): Region
  {
    var k := LastOpening(ts);
    if k < 0 || ClosedAfter(ts, k) then Outside else RegionOf(ts[k])
  }

  /** The loop's slot is exactly `OpenRegion`. */
  lemma {:induction false} ScanRegion(ts: seq<Token>)
    requires ErrorFree(ts)
    ensures Scan(ts).region == OpenRegion(ts)
  {
    if ts != [] {
      var p, t := ts[..|ts| - 1], ts[|ts| - 1];
      assert ts == p + [t];
      ScanRegion(p);
      if !OpensRegion(t) {
        var k := LastOpening(ts);
        assert k == LastOpening(p);
        if t.EndTag? {
          assert ClosedAfter(ts, k) by { assert k < |ts| - 1 && ts[|ts| - 1].EndTag?; }
        } else {
          if ClosedAfter(ts, k) {
            var j :| k < j < |ts| && ts[j].EndTag?;
            assert j < |p| && p[j] == ts[j];
            assert ClosedAfter(p, k);
          }
          if ClosedAfter(p, k) {
            var j :| k < j < |p| && p[j].EndTag?;
            assert ts[j] == p[j];
          }
        }
      }
    }
  }

  // ---------------------------------------------------------------------
  // Where each token goes

  /** The concatenated string forms of the tokens of `ts` that land in
      region `r`: every token except the opening tags, taken in the region
      open just before it (`r == Outside` gives the dropped tokens). */
  function Captured(ts: seq<Token>, r: Region): string
    requires ErrorFree(ts)
  {
    if ts == [] then ""
    else
      var p, t := ts[..|ts| - 1], ts[|ts| - 1];
      Captured(p, r) + (if !OpensRegion(t) && OpenRegion(p) == r then t.rendered else "")
  }

  /** The page fragment holds exactly the tokens seen inside `template`, the
      head fragment exactly those seen inside `head`. */
  lemma {:induction false} ScanRouting(ts: seq<Token>)
    requires ErrorFree(ts)
    ensures Scan(ts).page == Captured(ts, InTemplate)
    ensures Scan(ts).head == Captured(ts, InHead)
  {
    if ts != [] {
      var p := ts[..|ts| - 1];
      ScanRouting(p);
      ScanRegion(p);
    }
  }

  /** The summed lengths of the string forms of every token except the
      opening tags. */
  function EmittableLength(ts: seq<Token>): nat
    requires ErrorFree(ts)
  {
    if ts == [] then 0
    else
      var t := ts[|ts| - 1];
      EmittableLength(ts[..|ts| - 1]) + (if OpensRegion(t) then 0 else |t.rendered|)
  }

  /** Every token other than an opening tag goes to exactly one of page,
      head or nowhere: none is written twice, none is lost. */
  lemma {:induction false} CapturedIsPartition(ts: seq<Token>)
    requires ErrorFree(ts)
    ensures |Captured(ts, InTemplate)| + |Captured(ts, InHead)| + |Captured(ts, Outside)|
            == EmittableLength(ts)
  {
    if ts != [] {
      CapturedIsPartition(ts[..|ts| - 1]);
    }
  }

  /** Consequently the two fragments together are never longer than the
      string forms of the tokens they come from. */
  lemma FragmentsBoundedByInput(ts: seq<Token>)
    requires ErrorFree(ts)
    ensures |Scan(ts).page| + |Scan(ts).head| <= EmittableLength(ts)
  {
    ScanRouting(ts);
    CapturedIsPartition(ts);
  }

  // ---------------------------------------------------------------------
  // Both fragments are append-only

  lemma {:induction false} ScanAppendOnly(ts: seq<Token>, k: nat)
    requires ErrorFree(ts) && k <= |ts|
    ensures ErrorFree(ts[..k])
    ensures Scan(ts[..k]).page <= Scan(ts).page
    ensures Scan(ts[..k]).head <= Scan(ts).head
  {
    if k < |ts| {
      var p := ts[..|ts| - 1];
      ScanAppendOnly(p, k);
      assert p[..k] == ts[..k];
    } else {
      assert ts[..k] == ts;
    }
  }

  /** The result for the first `k` tokens is a prefix of the result for the
      whole stream, fragment by fragment. */
  lemma PartitionAppendOnly(ts: seq<Token>, k: nat)
    requires k <= |ts|
    ensures Partition(ts[..k]).page <= Partition(ts).page
    ensures Partition(ts[..k]).head <= Partition(ts).head
  {
    var n := FirstError(ts);
    if n < k {
      assert ts[..k][..n] == ts[..n];
      FirstErrorAt(ts[..k], n);
    } else {
      assert ts[..n][..k] == ts[..k];
      FirstErrorAt(ts[..k], k);
      assert ts[..k][..k] == ts[..k];
      ScanAppendOnly(ts[..n], k);
    }
  }

  // ---------------------------------------------------------------------
  // How the scan ends

  /** At an EOF token the fragments so far are returned with a nil error;
      at any other error token, the same fragments with that error. */
  lemma PartitionAtError(ts: seq<Token>, i: nat)
    requires i < |ts| && ErrorFree(ts[..i]) && ts[i].Error?
    ensures Partition(ts).page == Scan(ts[..i]).page
    ensures Partition(ts).head == Scan(ts[..i]).head
    ensures ts[i].error == EOF ==> Partition(ts).err == None
    ensures ts[i].error != EOF ==> Partition(ts).err == Some(ts[i].error)
  {
    FirstErrorAt(ts, i);
  }

  /** A stream that simply ends behaves like one ending in EOF. */
  lemma PartitionAtEnd(ts: seq<Token>)
    requires ErrorFree(ts)
    ensures Partition(ts) == Document(Scan(ts).page, Scan(ts).head, None)
  {
    assert ts[..|ts|] == ts;
    FirstErrorAt(ts, |ts|);
  }

  /** Nothing after the first error token is looked at. */
  lemma PartitionIgnoresRest(ts: seq<Token>, rest: seq<Token>)
    requires FirstError(ts) < |ts|
    ensures Partition(ts + rest) == Partition(ts)
  {
    var n, whole := FirstError(ts), ts + rest;
    assert whole[..n] == ts[..n] && whole[n] == ts[n];
    PartitionAtError(ts, n);
    PartitionAtError(whole, n);
  }

  // ---------------------------------------------------------------------
  // Regions

  /** Tokens with no error, no end tag and no opening tag among them. */
  predicate Plain(body: seq<Token>)
  {
    forall i :: 0 <= i < |body| ==> !body[i].Error? && !body[i].EndTag? && !OpensRegion(body[i])
  }

  /** Outside any region, tokens other than the opening tags are dropped. */
  lemma {:induction false} OutsideDropped(pre: seq<Token>, mid: seq<Token>)
    requires ErrorFree(pre) && Scan(pre).region == Outside
    requires forall i :: 0 <= i < |mid| ==> !mid[i].Error? && !OpensRegion(mid[i])
    ensures ErrorFree(pre + mid)
    ensures Scan(pre + mid) == Scan(pre)
  {
    if mid != [] {
      var m := mid[..|mid| - 1];
      var t := mid[|mid| - 1];
      OutsideDropped(pre, m);
      assert pre + mid == (pre + m) + [t];
      ScanSnoc(pre + m, t);
      assert Scan(pre + m).region == Outside;
      assert Step(Scan(pre + m), t) == Scan(pre + m);
    } else {
      assert pre + mid == pre;
    }
  }

  lemma FilledTwice(st: State, s1: string, s2: string)
    ensures Filled(Filled(st, s1), s2) == Filled(st, s1 + s2)
  {
    assert st.head + s1 + s2 == st.head + (s1 + s2);
    assert st.page + s1 + s2 == st.page + (s1 + s2);
  }

  /** Inside a region, tokens without an end tag among them are appended to
      that region's fragment and the slot stays. */
  lemma {:induction false} InsideRegion(pre: seq<Token>, body: seq<Token>)
    requires ErrorFree(pre) && Scan(pre).region != Outside && Plain(body)
    ensures ErrorFree(pre + body)
    ensures Scan(pre + body) == Filled(Scan(pre), Rendered(body))
  {
    if body == [] {
      assert pre + body == pre;
    } else {
      var b, t := body[..|body| - 1], body[|body| - 1];
      assert Plain(b) by {
        forall i | 0 <= i < |b| ensures !b[i].Error? && !b[i].EndTag? && !OpensRegion(b[i]) {
          assert b[i] == body[i];
        }
      }
      InsideRegion(pre, b);
      ScanSnoc(pre + b, t);
      assert pre + body == (pre + b) + [t];
      FilledTwice(Scan(pre), Rendered(b), t.rendered);
    }
  }

  /** A flat block `<head>…</x>` or `<template>…</x>`: the opening tag is
      stripped, the content and the closing end tag (whatever its name) are
      appended to the block's fragment, and the slot is empty afterwards. */
  lemma FlatBlock(pre: seq<Token>, open: Token, body: seq<Token>, close: Token)
    requires ErrorFree(pre) && OpensRegion(open) && Plain(body) && close.EndTag?
    ensures ErrorFree(pre + [open] + body + [close])
    ensures Scan(pre + [open] + body + [close]).region == Outside
    ensures open.atom == HeadAtom ==>
              Scan(pre + [open] + body + [close]).head == Scan(pre).head + Rendered(body) + close.rendered &&
              Scan(pre + [open] + body + [close]).page == Scan(pre).page
    ensures open.atom == TemplateAtom ==>
              Scan(pre + [open] + body + [close]).page == Scan(pre).page + Rendered(body) + close.rendered &&
              Scan(pre + [open] + body + [close]).head == Scan(pre).head
  {
    OpeningTagOnlyMovesSlot(pre, open);
    InsideRegion(pre + [open], body);
    EndTagClosesRegion(pre + [open] + body, close);
  }

  // ---------------------------------------------------------------------
  // Examples

  /** An empty page gives two empty fragments and no error. */
  lemma EmptyPage()
    ensures Partition([]) == Document("", "", None)
  {
    PartitionAtEnd([]);
  }

  /** `<head>A</head>` gives head `A</head>`: the closing tag is kept. */
  lemma HeadExample(a: string)
    ensures Partition([StartTag(HeadAtom, "<head>"), Text(a), EndTag(HeadAtom, "</head>")])
            == Document("", a + "</head>", None)
  {
    var open, text, close := StartTag(HeadAtom, "<head>"), Text(a), EndTag(HeadAtom, "</head>");
    var s1, s2, s3 := [open], [open, text], [open, text, close];
    ScanSnoc([], open);
    assert [] + [open] == s1;
    ScanSnoc(s1, text);
    assert s1 + [text] == s2;
    assert Scan(s2) == State(InHead, "", a);
    ScanSnoc(s2, close);
    assert s2 + [close] == s3;
    PartitionAtEnd(s3);
  }

  /** `<template><span>X</span>`: the region is closed by `</span>`. */
  lemma SpanClosesTemplate(x: string)
    ensures ErrorFree([StartTag(TemplateAtom, "<template>"), StartTag(OtherAtom("span"), "<span>"),
                       Text(x), EndTag(OtherAtom("span"), "</span>")])
    ensures Scan([StartTag(TemplateAtom, "<template>"), StartTag(OtherAtom("span"), "<span>"),
                  Text(x), EndTag(OtherAtom("span"), "</span>")])
            == State(Outside, "<span>" + x + "</span>", "")
  {
    var open, span, text := StartTag(TemplateAtom, "<template>"), StartTag(OtherAtom("span"), "<span>"), Text(x);
    var endSpan := EndTag(OtherAtom("span"), "</span>");
    var s1, s2, s3 := [open], [open, span], [open, span, text];
    ScanSnoc([], open);
    assert [] + [open] == s1;
    ScanSnoc(s1, span);
    assert s1 + [span] == s2;
    assert Scan(s2) == State(InTemplate, "<span>", "");
    ScanSnoc(s2, text);
    assert s2 + [text] == s3;
    assert Scan(s3) == State(InTemplate, "<span>" + x, "");
    ScanSnoc(s3, endSpan);
    assert s3 + [endSpan] == [open, span, text, endSpan];
  }

  /** `<template><span>X</span></template>` gives page `<span>X</span>`:
      `</span>` closes the region and is kept, `</template>` is then
      dropped. */
  lemma NestedEndTagExample(x: string)
    ensures Partition([StartTag(TemplateAtom, "<template>"), StartTag(OtherAtom("span"), "<span>"),
                       Text(x), EndTag(OtherAtom("span"), "</span>"),
                       EndTag(TemplateAtom, "</template>")])
            == Document("<span>" + x + "</span>", "", None)
  {
    var s4 := [StartTag(TemplateAtom, "<template>"), StartTag(OtherAtom("span"), "<span>"),
               Text(x), EndTag(OtherAtom("span"), "</span>")];
    var close := EndTag(TemplateAtom, "</template>");
    SpanClosesTemplate(x);
    EndTagClosesRegion(s4, close);
    assert s4 + [close] == [StartTag(TemplateAtom, "<template>"), StartTag(OtherAtom("span"), "<span>"),
                            Text(x), EndTag(OtherAtom("span"), "</span>"), close];
    PartitionAtEnd(s4 + [close]);
  }

  /** A malformed token stops the scan and is reported with the fragments
      accumulated so far. */
  lemma MalformedExample(e: string)
    ensures Partition([StartTag(HeadAtom, "<head>"), Text("A"), Error(Malformed(e)), Text("B")])
            == Document("", "A", Some(Malformed(e)))
  {
    var open, text := StartTag(HeadAtom, "<head>"), Text("A");
    var ts := [open, text, Error(Malformed(e)), Text("B")];
    ScanSnoc([], open);
    assert [] + [open] == [open];
    ScanSnoc([open], text);
    assert [open] + [text] == ts[..2];
    PartitionAtError(ts, 2);
  }
}
