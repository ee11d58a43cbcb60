/** The history pager: one page per lock acquisition, so the store may change
    between any two pages. */
module Pager {
  import opened Common
  import opened Metrics
  import opened Order
  import opened History

  const PAGE_SIZE: nat := 256

  type Row = map<int, MetricSample>

  /** `i64::saturating_add(1)`. */
  function After(timestampMs: int): int {
    if timestampMs >= I64_MAX then I64_MAX else timestampMs + 1
  }

  /** What the `k`-th page read would find in the store: any sequence of states,
      as long as rows are keyed by their own timestamp. */
  ghost predicate Legal(views: nat -> Row) {
    forall k: nat :: Keyed(views(k)) && forall x :: x in views(k) ==> x <= I64_MAX
  }

  /** Everything emitted from the `k`-th page on, when the `k`-th page read with
      cursor `c` returns `read(k, c)`. */
  function EmittedBy(read: (nat, int) -> seq<MetricSample>, k: nat, cursor: int): seq<MetricSample>
    decreases I64_MAX - cursor
  {
    var page := read(k, cursor);
    if page == [] then []
    else
      var next := After(page[|page| - 1].timestampMs);
      if next <= cursor then page else page + EmittedBy(read, k + 1, next)
  }

  /** `Broken`: the store failed a page read; what was sent before stays sent. */
  datatype Reply = ReversedRange | Complete(samples: seq<MetricSample>) | Broken(samples: seq<MetricSample>)

  /** The reply from the `k`-th page on, with `sent` already on the wire, when the
      `k`-th page read with cursor `c` fails exactly if `fails(k, c)`. */
  function Served(read: (nat, int) -> seq<MetricSample>, fails: (nat, int) -> bool, k: nat, cursor: int,
                  sent: seq<MetricSample>): Reply
    decreases I64_MAX - cursor
  {
    if fails(k, cursor) then Broken(sent)
    else
      var page := read(k, cursor);
      if page == [] then Complete(sent)
      else
        var next := After(page[|page| - 1].timestampMs);
        if next <= cursor then Complete(sent + page) else Served(read, fails, k + 1, next, sent + page)
  }

  /** `handle_history` after authorization: each turn takes the store lock anew,
      so `read` may answer from a different store every time. */
  method HandleHistory(read: (nat, int) -> seq<MetricSample>, fails: (nat, int) -> bool, from: int, to: int)
    returns (reply: Reply)
    ensures reply == if from > to then ReversedRange else Served(read, fails, 0, from, [])
  {
    if from > to {
      return ReversedRange;
    }
    var cursor := from;
    var samples: seq<MetricSample> := [];
    var k: nat := 0;
    while true
      invariant Served(read, fails, k, cursor, samples) == Served(read, fails, 0, from, [])
      decreases I64_MAX - cursor
    {
      if fails(k, cursor) {
        return Broken(samples);
      }
      var page := read(k, cursor);
      if page == [] {
        return Complete(samples);
      }
      var next := After(page[|page| - 1].timestampMs);
      samples := samples + page;
      if next <= cursor {
        return Complete(samples);
      }
      cursor, k := next, k + 1;
    }
  }

  /** A page read that the pager makes fails. */
  predicate FailsOnTheWay(read: (nat, int) -> seq<MetricSample>, fails: (nat, int) -> bool, k: nat, cursor: int)
    decreases I64_MAX - cursor
  {
    fails(k, cursor) ||
    (read(k, cursor) != [] &&
     var next := After(read(k, cursor)[|read(k, cursor)| - 1].timestampMs);
     next > cursor && FailsOnTheWay(read, fails, k + 1, next))
  }

  /** A completed reply is everything the pager emits; a broken one begins with what
      was sent and is a prefix of it; and a reply breaks off exactly when a page
      read on its way fails. */
  lemma {:induction false} ServedIsEmitted(read: (nat, int) -> seq<MetricSample>, fails: (nat, int) -> bool, k: nat,
                                           cursor: int, sent: seq<MetricSample>)
    ensures var reply := Served(read, fails, k, cursor, sent);
      && !reply.ReversedRange?
      && (reply.Complete? ==> reply.samples == sent + EmittedBy(read, k, cursor))
      && (reply.Broken? ==> sent <= reply.samples <= sent + EmittedBy(read, k, cursor))
      && (reply.Broken? <==> FailsOnTheWay(read, fails, k, cursor))
    decreases I64_MAX - cursor
  {
    var page := read(k, cursor);
    if !fails(k, cursor) && page != [] {
      var next := After(page[|page| - 1].timestampMs);
      if next > cursor {
        ServedIsEmitted(read, fails, k + 1, next, sent + page);
        assert sent + (page + EmittedBy(read, k + 1, next)) == (sent + page) + EmittedBy(read, k + 1, next);
      }
    }
  }

  /** Page reads of a store that holds `views(k)` when the `k`-th is made. */
  function Reader(views: nat -> Row, to: int): (nat, int) -> seq<MetricSample> {
    (k: nat, cursor: int) => Page(views(k), cursor, to, PAGE_SIZE)
  }

  function Emitted(views: nat -> Row, k: nat, cursor: int, to: int): seq<MetricSample> {
    EmittedBy(Reader(views, to), k, cursor)
  }

  function Stamps(samples: seq<MetricSample>): seq<int> {
    seq(|samples|, i requires 0 <= i < |samples| => samples[i].timestampMs)
  }

  /** A page is the first keys in range, in order; one that is not full reaches
      every row in range, and a full one every row up to its last. */
  lemma PageFacts(view: Row, from: int, to: int)
    requires Keyed(view)
    ensures var page := Page(view, from, to, PAGE_SIZE);
      && Stamps(page) == PageKeys(view, from, to, PAGE_SIZE)
      && (forall i :: 0 <= i < |page| ==> page[i].timestampMs in view && page[i] == view[page[i].timestampMs]
                                          && from <= page[i].timestampMs <= to)
      && (forall x :: x in InRange(view, from, to) ==>
            page != [] && (x > page[|page| - 1].timestampMs || x in Stamps(page)))
  {
    var keys := Ascend(InRange(view, from, to));
    var page := Page(view, from, to, PAGE_SIZE);
    assert Stamps(page) == PageKeys(view, from, to, PAGE_SIZE);
    AscendFacts(InRange(view, from, to));
    forall x | x in InRange(view, from, to)
      ensures page != [] && (x > page[|page| - 1].timestampMs || x in Stamps(page))
    {
      assert x in keys;
      var i :| 0 <= i < |keys| && keys[i] == x;
      if i < |page| {
        assert Stamps(page)[i] == x;
      } else {
        assert |page| == PAGE_SIZE && Stamps(page)[|page| - 1] == keys[|page| - 1] < keys[i];
      }
    }
  }

  /** No row in range sits at the last representable millisecond. */
  ghost predicate BelowTheEnd(views: nat -> Row, to: int) {
    forall k: nat :: I64_MAX in views(k) ==> to < I64_MAX
  }

  lemma AscendingConcat(a: seq<int>, b: seq<int>)
    requires Ascending(a) && Ascending(b)
    requires forall i, j :: 0 <= i < |a| && 0 <= j < |b| ==> a[i] < b[j]
    ensures Ascending(a + b)
  {
  }

  lemma StampsConcat(a: seq<MetricSample>, b: seq<MetricSample>)
    ensures Stamps(a + b) == Stamps(a) + Stamps(b)
  {
  }

  /** Main result. Whatever happens to the store between pages, the emitted
      timestamps strictly increase and stay in range. */
  lemma {:induction false} EmitsStrictlyIncreasing(views: nat -> Row, k: nat, cursor: int, to: int)
    requires Legal(views) && BelowTheEnd(views, to)
    ensures var stamps := Stamps(Emitted(views, k, cursor, to));
      Ascending(stamps) && forall i :: 0 <= i < |stamps| ==> cursor <= stamps[i] <= to
    decreases I64_MAX - cursor
  {
    var page := Page(views(k), cursor, to, PAGE_SIZE);
    PageFacts(views(k), cursor, to);
    if page != [] {
      var last := page[|page| - 1].timestampMs;
      var rest := Emitted(views, k + 1, After(last), to);
      EmitsStrictlyIncreasing(views, k + 1, After(last), to);
      StampsConcat(page, rest);
      forall i, j | 0 <= i < |page| && 0 <= j < |rest| ensures Stamps(page)[i] < Stamps(rest)[j] {
        assert Stamps(page)[i] <= Stamps(page)[|page| - 1];
      }
      AscendingConcat(Stamps(page), Stamps(rest));
    }
  }

  /** Main result. A row in range that every page read finds is emitted; where the
      order above is strict, exactly once. */
  lemma {:induction false} EmitsEveryLastingRow(views: nat -> Row, k: nat, cursor: int, to: int, x: int)
    requires Legal(views) && cursor <= x <= to && forall j: nat :: j >= k ==> x in views(j)
    ensures x in Stamps(Emitted(views, k, cursor, to))
    decreases I64_MAX - cursor
  {
    var page := Page(views(k), cursor, to, PAGE_SIZE);
    PageFacts(views(k), cursor, to);
    assert x in InRange(views(k), cursor, to);
    var last := page[|page| - 1].timestampMs;
    var rest := Emitted(views, k + 1, After(last), to);
    StampsConcat(page, rest);
    if x > last { EmitsEveryLastingRow(views, k + 1, After(last), to, x); }
  }

  /** Nothing changes the store while the pager runs. */
  ghost predicate Unchanging(views: nat -> Row, view: Row) {
    forall k: nat :: views(k) == view
  }

  lemma {:induction false} EmitsOnlyRows(views: nat -> Row, view: Row, k: nat, cursor: int, to: int, i: nat)
    requires Legal(views) && Unchanging(views, view) && i < |Emitted(views, k, cursor, to)|
    ensures var s := Emitted(views, k, cursor, to)[i];
      s.timestampMs in InRange(view, cursor, to) && s == view[s.timestampMs]
    decreases I64_MAX - cursor
  {
    var page := Page(views(k), cursor, to, PAGE_SIZE);
    PageFacts(views(k), cursor, to);
    var next := After(page[|page| - 1].timestampMs);
    if i >= |page| {
      assert Emitted(views, k, cursor, to) == page + Emitted(views, k + 1, next, to);
      assert Emitted(views, k, cursor, to)[i] == Emitted(views, k + 1, next, to)[i - |page|];
      EmitsOnlyRows(views, view, k + 1, next, to, i - |page|);
    } else {
      assert Emitted(views, k, cursor, to)[i] == page[i];
    }
  }

  lemma EmitsExactlyTheRange(views: nat -> Row, view: Row, from: int, to: int)
    requires Legal(views) && Unchanging(views, view) && BelowTheEnd(views, to)
    ensures Stamps(Emitted(views, 0, from, to)) == Ascend(InRange(view, from, to))
  {
    var out := Emitted(views, 0, from, to);
    var keys := Ascend(InRange(view, from, to));
    EmitsStrictlyIncreasing(views, 0, from, to);
    AscendFacts(InRange(view, from, to));
    forall x ensures x in Stamps(out) <==> x in keys {
      if x in keys { EmitsEveryLastingRow(views, 0, from, to, x); }
      if x in Stamps(out) {
        var i :| 0 <= i < |out| && Stamps(out)[i] == x;
        EmitsOnlyRows(views, view, 0, from, to, i);
      }
    }
    AscendUnique(Stamps(out), keys);
  }

  /** Main result. On an unchanging store the pages concatenate to the one
      unlimited range query. */
  lemma PagesConcatenateToTheQuery(views: nat -> Row, view: Row, from: int, to: int)
    requires Legal(views) && Unchanging(views, view) && BelowTheEnd(views, to)
    ensures Emitted(views, 0, from, to) == Page(view, from, to, |view|)
  {
    var out := Emitted(views, 0, from, to);
    var keys := Ascend(InRange(view, from, to));
    EmitsExactlyTheRange(views, view, from, to);
    SubsetIsSmaller(InRange(view, from, to), view.Keys);
    AscendFacts(InRange(view, from, to));
    assert PageKeys(view, from, to, |view|) == keys;
    forall i | 0 <= i < |out| ensures out[i] == Page(view, from, to, |view|)[i] {
      EmitsOnlyRows(views, view, 0, from, to, i);
      assert Stamps(out)[i] == keys[i];
    }
  }

  // ----- the last representable millisecond

  /** The pager reaches the row at the last millisecond with its cursor already
      there: it is alone on its page, right after the row before it. */
  predicate ReachedAlone(keys: seq<int>, from: int) {
    && |keys| > 0 && (|keys| - 1) % 256 == 0
    && (if |keys| == 1 then from == I64_MAX else keys[|keys| - 2] == I64_MAX - 1)
  }

  /** The rows a query up to the last millisecond finds. */
  function KeysFrom(view: Row, cursor: int): seq<int> {
    Ascend(InRange(view, cursor, I64_MAX))
  }

  lemma EndsAtTheEnd(view: Row, cursor: int)
    requires I64_MAX in view && cursor <= I64_MAX
    ensures KeysFrom(view, cursor) != [] && KeysFrom(view, cursor)[|KeysFrom(view, cursor)| - 1] == I64_MAX
    ensures cursor == I64_MAX ==> KeysFrom(view, cursor) == [I64_MAX]
  {
    var range := InRange(view, cursor, I64_MAX);
    AscendLast(range, I64_MAX);
    AscendFacts(range);
    if cursor == I64_MAX {
      assert range == {I64_MAX};
      assert range - {I64_MAX} == {};
      assert Ascend(range) == [I64_MAX] + Ascend(range - {I64_MAX});
    }
  }

  lemma FullPageStep(view: Row, cursor: int)
    requires |KeysFrom(view, cursor)| > PAGE_SIZE
    ensures var last := KeysFrom(view, cursor)[PAGE_SIZE - 1];
      cursor <= last < I64_MAX && KeysFrom(view, last + 1) == KeysFrom(view, cursor)[PAGE_SIZE..]
  {
    var range := InRange(view, cursor, I64_MAX);
    var keys := Ascend(range);
    var last := keys[PAGE_SIZE - 1];
    AscendSuffix(range, PAGE_SIZE, last);
    AscendFacts(range);
    assert last in keys && last in range;
    assert keys[PAGE_SIZE] in keys && keys[PAGE_SIZE] in range && last < keys[PAGE_SIZE];
    assert InRange(view, last + 1, I64_MAX) == Above(range, last);
  }

  lemma PageStamps(view: Row, cursor: int)
    requires Keyed(view)
    ensures var keys := KeysFrom(view, cursor);
      Stamps(Page(view, cursor, I64_MAX, PAGE_SIZE)) == if |keys| <= PAGE_SIZE then keys else keys[..PAGE_SIZE]
  {
    PageFacts(view, cursor, I64_MAX);
  }

  /** What page reads of keyed rows look like, whatever the store. */
  ghost predicate Pages(read: (nat, int) -> seq<MetricSample>) {
    forall k: nat, c: int :: PageFrom(read(k, c), c)
  }

  predicate PageFrom(page: seq<MetricSample>, c: int) {
    Ascending(Stamps(page)) && forall i :: 0 <= i < |page| ==> c <= page[i].timestampMs <= I64_MAX
  }

  /** On the way from the `k`-th page the pager meets the last millisecond twice: a
      page entered with an earlier cursor ends there, and the row is still present
      at the next read. */
  predicate Repeats(read: (nat, int) -> seq<MetricSample>, k: nat, cursor: int)
    decreases I64_MAX - cursor
  {
    var page := read(k, cursor);
    page != [] &&
    var last := page[|page| - 1].timestampMs;
    if last >= I64_MAX then cursor < I64_MAX && read(k + 1, I64_MAX) != []
    else last >= cursor && Repeats(read, k + 1, last + 1)
  }

  lemma {:induction false} EmitsFromTheCursor(read: (nat, int) -> seq<MetricSample>, k: nat, cursor: int, i: nat)
    requires Pages(read) && i < |EmittedBy(read, k, cursor)|
    ensures cursor <= Stamps(EmittedBy(read, k, cursor))[i]
    decreases I64_MAX - cursor
  {
    var page := read(k, cursor);
    assert PageFrom(page, cursor);
    if i >= |page| { EmitsFromTheCursor(read, k + 1, After(page[|page| - 1].timestampMs), i - |page|); }
  }

  /** A page that ends earlier than the last millisecond decides nothing. */
  lemma EarlierPageDecidesNothing(read: (nat, int) -> seq<MetricSample>, k: nat, cursor: int)
    requires Pages(read) && read(k, cursor) != [] && read(k, cursor)[|read(k, cursor)| - 1].timestampMs < I64_MAX
    ensures var last := read(k, cursor)[|read(k, cursor)| - 1].timestampMs;
      Ascending(Stamps(EmittedBy(read, k, cursor))) <==> Ascending(Stamps(EmittedBy(read, k + 1, last + 1)))
  {
    var page := read(k, cursor);
    assert PageFrom(page, cursor);
    var last := page[|page| - 1].timestampMs;
    var rest := EmittedBy(read, k + 1, last + 1);
    forall i | 0 <= i < |rest| ensures last < Stamps(rest)[i] { EmitsFromTheCursor(read, k + 1, last + 1, i); }
    assert EmittedBy(read, k, cursor) == page + rest;
    PageThenRest(page, rest, last);
  }

  lemma PageThenRest(page: seq<MetricSample>, rest: seq<MetricSample>, last: int)
    requires page != [] && Ascending(Stamps(page)) && page[|page| - 1].timestampMs == last
    requires forall i :: 0 <= i < |rest| ==> last < Stamps(rest)[i]
    ensures Ascending(Stamps(page + rest)) <==> Ascending(Stamps(rest))
  {
    StampsConcat(page, rest);
    SuffixOrder(Stamps(page), Stamps(rest), last);
  }

  /** A page read at the last millisecond holds that row alone, and is the last. */
  lemma EmittedAtTheEnd(read: (nat, int) -> seq<MetricSample>, k: nat)
    requires Pages(read)
    ensures EmittedBy(read, k, I64_MAX) == read(k, I64_MAX)
    ensures Stamps(read(k, I64_MAX)) == if read(k, I64_MAX) == [] then [] else [I64_MAX]
  {
    var page := read(k, I64_MAX);
    assert PageFrom(page, I64_MAX);
    if page != [] { AscendingSpread(Stamps(page)); }
  }

  lemma {:induction false} AscendingSpread(stamps: seq<int>)
    requires Ascending(stamps) && stamps != []
    ensures stamps[0] + |stamps| - 1 <= stamps[|stamps| - 1]
  {
    var n := |stamps| - 1;
    if n > 0 {
      AscendingSpread(stamps[..n]);
      assert stamps[n - 1] < stamps[n];
    }
  }

  /** A page that ends at the last millisecond. */
  lemma LastPageDecides(read: (nat, int) -> seq<MetricSample>, k: nat, cursor: int)
    requires Pages(read) && cursor <= I64_MAX
    requires read(k, cursor) != [] && read(k, cursor)[|read(k, cursor)| - 1].timestampMs == I64_MAX
    ensures Ascending(Stamps(EmittedBy(read, k, cursor))) <==> cursor == I64_MAX || read(k + 1, I64_MAX) == []
  {
    var page := read(k, cursor);
    assert PageFrom(page, cursor);
    if cursor < I64_MAX {
      EmittedAtTheEnd(read, k + 1);
      StampsConcat(page, read(k + 1, I64_MAX));
      RepeatIsNotAscending(Stamps(page), I64_MAX);
      assert Stamps(page) + [] == Stamps(page);
    }
  }

  lemma RepeatIsNotAscending(keys: seq<int>, x: int)
    requires keys != [] && keys[|keys| - 1] == x
    ensures !Ascending(keys + [x])
  {
    var twice := keys + [x];
    assert twice[|keys| - 1] == twice[|keys|];
  }

  lemma {:induction false} PagesRepeatExactly(read: (nat, int) -> seq<MetricSample>, k: nat, cursor: int)
    requires Pages(read) && cursor <= I64_MAX
    ensures Ascending(Stamps(EmittedBy(read, k, cursor))) <==> !Repeats(read, k, cursor)
    decreases I64_MAX - cursor
  {
    var page := read(k, cursor);
    assert PageFrom(page, cursor);
    if page != [] {
      var last := page[|page| - 1].timestampMs;
      if last < I64_MAX {
        PagesRepeatExactly(read, k + 1, last + 1);
        EarlierPageDecidesNothing(read, k, cursor);
      } else {
        LastPageDecides(read, k, cursor);
      }
    }
  }

  lemma ReaderPages(views: nat -> Row)
    requires Legal(views)
    ensures Pages(Reader(views, I64_MAX))
  {
    forall k: nat, c: int ensures PageFrom(Reader(views, I64_MAX)(k, c), c) { PageFacts(views(k), c, I64_MAX); }
  }

  /** Main result, the exact condition for stores that change between pages: the
      emitted timestamps of a query up to the last millisecond strictly increase if
      and only if no page entered before it ends there with the row still present
      at the next read. */
  lemma RepeatsExactly(views: nat -> Row, k: nat, cursor: int)
    requires Legal(views) && cursor <= I64_MAX
    ensures Ascending(Stamps(Emitted(views, k, cursor, I64_MAX))) <==> !Repeats(Reader(views, I64_MAX), k, cursor)
  {
    ReaderPages(views);
    PagesRepeatExactly(Reader(views, I64_MAX), k, cursor);
  }

  lemma RepeatsLater(read: (nat, int) -> seq<MetricSample>, k: nat, cursor: int, last: int)
    requires read(k, cursor) != [] && read(k, cursor)[|read(k, cursor)| - 1].timestampMs == last
      && cursor <= last < I64_MAX
    ensures Repeats(read, k, cursor) <==> Repeats(read, k + 1, last + 1)
  {
  }

  lemma RepeatsNow(read: (nat, int) -> seq<MetricSample>, k: nat, cursor: int)
    requires read(k, cursor) != [] && read(k, cursor)[|read(k, cursor)| - 1].timestampMs == I64_MAX
    requires read(k + 1, I64_MAX) != []
    ensures Repeats(read, k, cursor) <==> cursor < I64_MAX
  {
  }

  /** Page reads that follow one fixed list of keys: `keysAt(c)` are those from `c`
      on, up to the last millisecond, and a page is the first 256 of them. */
  predicate Follows(read: (nat, int) -> seq<MetricSample>, keysAt: int -> seq<int>, k: nat, c: int) {
    var keys, page := keysAt(c), read(k, c);
    && keys != [] && page != []
    && (c == I64_MAX ==> keys == [I64_MAX])
    && (if |keys| <= 256 then
          page[|page| - 1].timestampMs == I64_MAX && (c < I64_MAX ==> !ReachedAlone(keys, c))
        else
          var last := page[|page| - 1].timestampMs;
          last == keys[255] && c <= last < I64_MAX && keysAt(last + 1) == keys[256..])
  }

  /** In a store that does not change, reaching the row alone is not repeating it. */
  lemma {:induction false} RepeatsUnlessReachedAlone(read: (nat, int) -> seq<MetricSample>, keysAt: int -> seq<int>,
                                                     k: nat, cursor: int)
    requires cursor <= I64_MAX && forall j: nat, c: int :: c <= I64_MAX ==> Follows(read, keysAt, j, c)
    ensures Repeats(read, k, cursor) <==> !ReachedAlone(keysAt(cursor), cursor)
    decreases I64_MAX - cursor
  {
    assert Follows(read, keysAt, k, cursor) && Follows(read, keysAt, k + 1, I64_MAX);
    var keys := keysAt(cursor);
    if |keys| <= 256 {
      RepeatsNow(read, k, cursor);
    } else {
      var last := keys[255];
      RepeatsUnlessReachedAlone(read, keysAt, k + 1, last + 1);
      RepeatsLater(read, k, cursor, last);
      ReachedAloneLater(keys, cursor);
    }
  }

  lemma ReaderFollows(views: nat -> Row, view: Row, k: nat, c: int)
    requires Legal(views) && Unchanging(views, view) && I64_MAX in view && c <= I64_MAX
    ensures Follows(Reader(views, I64_MAX), (x: int) => KeysFrom(view, x), k, c)
  {
    assert views(k) == view;
    EndsAtTheEnd(view, c);
    if |KeysFrom(view, c)| <= PAGE_SIZE {
      LastPageOf(view, c);
      ShortReachedAlone(view, c);
    } else {
      FullPageStep(view, c);
      FullPageOf(view, c);
    }
  }

  lemma LastPageOf(view: Row, cursor: int)
    requires Keyed(view) && I64_MAX in view && cursor <= I64_MAX && |KeysFrom(view, cursor)| <= PAGE_SIZE
    ensures var page := Page(view, cursor, I64_MAX, PAGE_SIZE);
      page != [] && page[|page| - 1].timestampMs == I64_MAX
  {
    var page := Page(view, cursor, I64_MAX, PAGE_SIZE);
    EndsAtTheEnd(view, cursor);
    PageStamps(view, cursor);
    assert |page| == |Stamps(page)| && page[|page| - 1].timestampMs == Stamps(page)[|page| - 1];
  }

  lemma FullPageOf(view: Row, cursor: int)
    requires Keyed(view) && |KeysFrom(view, cursor)| > PAGE_SIZE
    ensures var page := Page(view, cursor, I64_MAX, PAGE_SIZE);
      page != [] && page[|page| - 1].timestampMs == KeysFrom(view, cursor)[PAGE_SIZE - 1]
  {
    var page := Page(view, cursor, I64_MAX, PAGE_SIZE);
    PageStamps(view, cursor);
    assert |page| == |Stamps(page)| && page[|page| - 1].timestampMs == Stamps(page)[|page| - 1];
  }

  lemma ShortReachedAlone(view: Row, cursor: int)
    requires I64_MAX in view && cursor <= I64_MAX && |KeysFrom(view, cursor)| <= PAGE_SIZE
    ensures ReachedAlone(KeysFrom(view, cursor), cursor) <==> cursor == I64_MAX
  {
    EndsAtTheEnd(view, cursor);
  }

  lemma ReachedAloneLater(keys: seq<int>, cursor: int)
    requires |keys| > PAGE_SIZE
    ensures ReachedAlone(keys, cursor) <==> ReachedAlone(keys[PAGE_SIZE..], keys[PAGE_SIZE - 1] + 1)
  {
  }

  /** Main result, in closed form. When a row at the last representable millisecond
      is in range of a query up to it and the store does not change, the emitted
      timestamps still strictly increase if and only if the pager happens to reach
      that row alone with its cursor on it; otherwise the row is emitted twice. */
  lemma LastMillisecondExactly(views: nat -> Row, view: Row, k: nat, cursor: int)
    requires Legal(views) && Unchanging(views, view) && I64_MAX in view && cursor <= I64_MAX
    ensures Ascending(Stamps(Emitted(views, k, cursor, I64_MAX))) <==> ReachedAlone(KeysFrom(view, cursor), cursor)
  {
    RepeatsExactly(views, k, cursor);
    var keysAt := (x: int) => KeysFrom(view, x);
    forall j: nat, c: int | c <= I64_MAX ensures Follows(Reader(views, I64_MAX), keysAt, j, c) {
      ReaderFollows(views, view, j, c);
    }
    RepeatsUnlessReachedAlone(Reader(views, I64_MAX), keysAt, k, cursor);
  }

  function Always(view: Row): nat -> Row {
    (k: nat) => view
  }

  /** A store it fails on: its one row is at the last millisecond, and a query that
      starts earlier is sent that row twice. */
  lemma LastRowIsSentTwice(row: MetricSample, from: int)
    requires row.timestampMs == I64_MAX && from < I64_MAX
    ensures Stamps(Emitted(Always(map[I64_MAX := row]), 0, from, I64_MAX)) == [I64_MAX, I64_MAX]
  {
    var view: Row := map[I64_MAX := row];
    var read := Reader(Always(view), I64_MAX);
    OneRowPage(view, from);
    OneRowPage(view, I64_MAX);
    ReaderPages(Always(view));
    EmittedAtTheEnd(read, 1);
    StampsConcat(read(0, from), read(1, I64_MAX));
  }

  lemma OneRowPage(view: Row, cursor: int)
    requires Keyed(view) && view.Keys == {I64_MAX} && cursor <= I64_MAX
    ensures Stamps(Page(view, cursor, I64_MAX, PAGE_SIZE)) == [I64_MAX]
  {
    assert InRange(view, cursor, I64_MAX) == {I64_MAX} == InRange(view, I64_MAX, I64_MAX);
    EndsAtTheEnd(view, I64_MAX);
    PageStamps(view, cursor);
  }

  /** Appending later stamps to an ascending page decides nothing by itself. */
  lemma SuffixOrder(a: seq<int>, b: seq<int>, last: int)
    requires Ascending(a) && a != [] && a[|a| - 1] == last
    requires forall j :: 0 <= j < |b| ==> last < b[j]
    ensures Ascending(a + b) <==> Ascending(b)
  {
    assert forall i :: 0 <= i < |a| ==> a[i] <= last;
    if Ascending(b) { AscendingConcat(a, b); }
    if Ascending(a + b) {
      forall i, j | 0 <= i < j < |b| ensures b[i] < b[j] {
        assert (a + b)[|a| + i] == b[i] && (a + b)[|a| + j] == b[j];
      }
    }
  }

  // ----- replies from a running store

  /** What the `k`-th page read finds when the store has run `runs(k)` by then. */
  function Views(runs: nat -> seq<Op>, resolution: Resolution): nat -> Row {
    (k: nat) => View(Run(runs(k)), resolution)
  }

  function Failures(runs: nat -> seq<Op>, resolution: Resolution, to: int): (nat, int) -> bool {
    (k: nat, cursor: int) => !PageReads(Run(runs(k)), cursor, to, resolution, PAGE_SIZE)
  }

  /** Every run of the store gives the pager what it relies on. */
  lemma StoreRunsAreLegal(runs: nat -> seq<Op>, resolution: Resolution)
    requires forall k: nat :: Representable(runs(k))
    ensures Legal(Views(runs, resolution))
  {
    forall k: nat
      ensures Keyed(Views(runs, resolution)(k)) && forall x :: x in Views(runs, resolution)(k) ==> x <= I64_MAX {
      ViewsAreKeyed(runs(k), resolution);
    }
  }

  lemma PrefixAscends(a: seq<MetricSample>, b: seq<MetricSample>, lo: int, hi: int)
    requires a <= b && Ascending(Stamps(b)) && forall i :: 0 <= i < |b| ==> lo <= Stamps(b)[i] <= hi
    ensures Ascending(Stamps(a)) && forall i :: 0 <= i < |a| ==> lo <= Stamps(a)[i] <= hi
  {
    assert forall i :: 0 <= i < |a| ==> Stamps(a)[i] == Stamps(b)[i];
  }

  /** Main result, end to end. Whatever inserts, prunes and faults the store runs
      through between pages, a reply sends strictly increasing timestamps in range,
      also when an unreadable minute breaks it off, and a completed one has sent
      every row in range that the store held throughout. */
  lemma RepliesOverStoreRuns(runs: nat -> seq<Op>, resolution: Resolution, from: int, to: int)
    requires (forall k: nat :: Representable(runs(k))) && BelowTheEnd(Views(runs, resolution), to)
    ensures var reply := Served(Reader(Views(runs, resolution), to), Failures(runs, resolution, to), 0, from, []);
      && !reply.ReversedRange? && Ascending(Stamps(reply.samples))
      && (forall i :: 0 <= i < |reply.samples| ==> from <= Stamps(reply.samples)[i] <= to)
      && (reply.Complete? ==>
            forall x :: from <= x <= to && (forall k: nat :: x in View(Run(runs(k)), resolution)) ==>
              x in Stamps(reply.samples))
  {
    var views := Views(runs, resolution);
    var read, fails := Reader(views, to), Failures(runs, resolution, to);
    StoreRunsAreLegal(runs, resolution);
    ServedIsEmitted(read, fails, 0, from, []);
    EmitsStrictlyIncreasing(views, 0, from, to);
    var all := Emitted(views, 0, from, to);
    assert [] + all == all;
    var reply := Served(read, fails, 0, from, []);
    PrefixAscends(reply.samples, all, from, to);
    if reply.Complete? {
      forall x | from <= x <= to && (forall k: nat :: x in View(Run(runs(k)), resolution))
        ensures x in Stamps(reply.samples) {
        assert forall k: nat :: x in views(k);
        EmitsEveryLastingRow(views, 0, from, to, x);
      }
    }
  }
}
