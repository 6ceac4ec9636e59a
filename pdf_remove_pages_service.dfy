/** The page-removal service (Backend/services/pdfRemovePagesService.js):
    the parser that turns text such as `1,3,5-8` into a set of page
    numbers, and the removal that keeps every other page in its original
    order. */
module PdfRemovePagesService {
  import opened Results
  import opened JsText
  import opened SortedSets
  import opened PdfDocument

  /* ---------------------------------------------------------------------
     parsePageRanges
     --------------------------------------------------------------------- */

  /** The errors the parser throws, one per check. */
  datatype RangeError =
    | InvalidRange(token: string)
    | StartAfterEnd(start: int, end: int)
    | RangeOutsidePdf(start: int, end: int, totalPages: int)
    | InvalidPageNumber(token: string)
    | PageOutsidePdf(page: int, totalPages: int)

  /** The pages one token names: `low` to `high`, both included. */
  datatype Bounds = Bounds(low: int, high: int)

  /** The page numbers `low..high` in ascending order (IntervalAscending). */
  function Interval(low: int, high: int): (r: seq<int>)
    ensures forall x :: x in r <==> low <= x <= high
    decreases high - low
  {
    if high < low then [] else Interval(low, high - 1) + [high]
  }

  lemma {:induction false} IntervalAscending(low: int, high: int)
    ensures StrictlyAscending(Interval(low, high))
    decreases high - low
  {
    if low <= high {
      IntervalAscending(low, high - 1);
      var init := Interval(low, high - 1);
      assert forall i :: 0 <= i < |init| ==> init[i] in init;
    }
  }

  /** The three checks on a `start-end` token, in the order they are made:
      both numbers present, start not after end, both inside the document. */
  function CheckRange(token: string, start: Option<int>, end: Option<int>, totalPages: int)
    : (r: Result<Bounds, RangeError>)
    ensures r.Success? <==> start.Some? && end.Some? && 1 <= start.value <= end.value <= totalPages
    ensures r.Success? ==> r.value == Bounds(start.value, end.value)
    ensures start.Some? && end.Some? && start.value > end.value ==> r == Failure(StartAfterEnd(start.value, end.value))
  {
    if start.None? || end.None? then Failure(InvalidRange(token))
    else if start.value > end.value then Failure(StartAfterEnd(start.value, end.value))
    else if start.value < 1 || end.value > totalPages then
      Failure(RangeOutsidePdf(start.value, end.value, totalPages))
    else Success(Bounds(start.value, end.value))
  }

  /** The two checks on a single-page token. */
  function CheckPage(token: string, page: Option<int>, totalPages: int): (r: Result<Bounds, RangeError>)
    ensures r.Success? <==> page.Some? && 1 <= page.value <= totalPages
    ensures r.Success? ==> r.value == Bounds(page.value, page.value)
  {
    match page
    case None => Failure(InvalidPageNumber(token))
    case Some(p) =>
      if p < 1 || p > totalPages then Failure(PageOutsidePdf(p, totalPages)) else Success(Bounds(p, p))
  }

  /** One comma-separated token: `start-end` (every dash part is parsed,
      the first two are used) or a single page. */
  function TokenBounds(part: string, totalPages: int): (r: Result<Bounds, RangeError>)
    ensures r.Success? ==> 1 <= r.value.low <= r.value.high <= totalPages
  {
    var trimmed := Trim(part);
    if '-' in trimmed then
      var nums := SplitHolding(trimmed, '-');
      CheckRange(trimmed, ParseInt(Trim(nums[0])), ParseInt(Trim(nums[1])), totalPages)
    else
      CheckPage(trimmed, ParseInt(trimmed), totalPages)
  }

  function TokenBoundsEach(s: string, totalPages: int): (rs: seq<Result<Bounds, RangeError>>)
    ensures |rs| == |Split(s, ',')|
    ensures forall i :: 0 <= i < |rs| ==> rs[i] == TokenBounds(Split(s, ',')[i], totalPages)
  {
    var parts := Split(s, ',');
    seq(|parts|, i requires 0 <= i < |parts| => TokenBounds(parts[i], totalPages))
  }

  /** Every page the bounds name, token after token, repetitions kept. */
  function Covered(bounds: seq<Bounds>): (r: seq<int>)
    ensures forall x :: x in r <==> exists k :: 0 <= k < |bounds| && bounds[k].low <= x <= bounds[k].high
  {
    if |bounds| == 0 then []
    else
      var init := bounds[..|bounds| - 1];
      var last := bounds[|bounds| - 1];
      assert forall k :: 0 <= k < |init| ==> init[k] == bounds[k];
      Covered(init) + Interval(last.low, last.high)
  }

  /** One more token adds exactly its own pages. */
  lemma CoveredSnoc(bounds: seq<Bounds>, b: Bounds)
    ensures forall x :: x in Covered(bounds + [b]) <==> x in Covered(bounds) || b.low <= x <= b.high
  {
    assert (bounds + [b])[..|bounds|] == bounds;
  }

  /** What `parsePageRanges` returns: the first bad token's error, or every
      page some token names, ascending and without repetition. */
  function RemovalPagesOf(s: string, totalPages: int): (r: Result<seq<int>, RangeError>)
    ensures r.Success? ==> StrictlyAscending(r.value)
  {
    match Collect(TokenBoundsEach(s, totalPages))
    case Failure(e) => Failure(e)
    case Success(bounds) => Success(SortedSet(Covered(bounds)))
  }

  /** `parsePageRanges(rangeString, totalPages)`: a loop over the tokens
      adding pages to a set, which is sorted at the end. */
  method ParsePageRanges(rangeString: string, totalPages: int) returns (r: Result<seq<int>, RangeError>)
    ensures r == RemovalPagesOf(rangeString, totalPages)
  {
    var pages: seq<int> := [];
    var ranges := Split(rangeString, ',');
    ghost var tokens := TokenBoundsEach(rangeString, totalPages);
    ghost var found: seq<Bounds> := [];
    for k := 0 to |ranges|
      invariant |found| == k
      invariant forall j :: 0 <= j < k ==> tokens[j] == Success(found[j])
      invariant SameValues(pages, Covered(found))
    {
      var bounds := ReadToken(ranges[k], totalPages);
      if bounds.Failure? {
        AbortParse(rangeString, totalPages, found, bounds);
        return Failure(bounds.error);
      }
      var grown := AddPages(pages, bounds.value.low, bounds.value.high);
      GrowCoverage(pages, found, bounds.value, grown);
      pages := grown;
      assert (found + [bounds.value])[..k] == found;
      found := found + [bounds.value];
    }
    FinishParse(rangeString, totalPages, found, pages);
    return Success(SortedSet(pages));
  }

  lemma GrowCoverage(pages: seq<int>, found: seq<Bounds>, b: Bounds, grown: seq<int>)
    requires SameValues(pages, Covered(found))
    requires forall x :: x in grown <==> x in pages || b.low <= x <= b.high
    ensures SameValues(grown, Covered(found + [b]))
  {
    CoveredSnoc(found, b);
  }

  lemma AbortParse(s: string, totalPages: int, found: seq<Bounds>, bad: Result<Bounds, RangeError>)
    requires |found| < |Split(s, ',')| && bad.Failure?
    requires bad == TokenBounds(Split(s, ',')[|found|], totalPages)
    requires forall j :: 0 <= j < |found| ==> TokenBoundsEach(s, totalPages)[j] == Success(found[j])
    ensures RemovalPagesOf(s, totalPages) == Failure(bad.error)
  {
    CollectStopsAt(TokenBoundsEach(s, totalPages), |found|);
  }

  lemma FinishParse(s: string, totalPages: int, found: seq<Bounds>, pages: seq<int>)
    requires |found| == |TokenBoundsEach(s, totalPages)|
    requires forall j :: 0 <= j < |found| ==> TokenBoundsEach(s, totalPages)[j] == Success(found[j])
    requires SameValues(pages, Covered(found))
    ensures RemovalPagesOf(s, totalPages) == Success(SortedSet(pages))
  {
    CollectAllSucceed(TokenBoundsEach(s, totalPages), found);
    SortedSetOfSameValues(pages, Covered(found));
  }

  /** The checks the loop body makes on one token, in their order. */
  method ReadToken(range: string, totalPages: int) returns (r: Result<Bounds, RangeError>)
    ensures r == TokenBounds(range, totalPages)
  {
    var trimmed := Trim(range);
    if '-' in trimmed {
      var nums := SplitHolding(trimmed, '-');
      var start := ParseInt(Trim(nums[0]));
      var end := ParseInt(Trim(nums[1]));
      if start.None? || end.None? {
        return Failure(InvalidRange(trimmed));
      }
      if start.value > end.value {
        return Failure(StartAfterEnd(start.value, end.value));
      }
      if start.value < 1 || end.value > totalPages {
        return Failure(RangeOutsidePdf(start.value, end.value, totalPages));
      }
      return Success(Bounds(start.value, end.value));
    } else {
      var pageNum := ParseInt(trimmed);
      if pageNum.None? {
        return Failure(InvalidPageNumber(trimmed));
      }
      if pageNum.value < 1 || pageNum.value > totalPages {
        return Failure(PageOutsidePdf(pageNum.value, totalPages));
      }
      return Success(Bounds(pageNum.value, pageNum.value));
    }
  }

  /** `for (let i = start; i <= end; i++) pages.add(i)` on a set kept as a
      list without repetitions. */
  method AddPages(pages: seq<int>, low: int, high: int) returns (out: seq<int>)
    ensures forall x :: x in out <==> x in pages || low <= x <= high
    ensures Distinct(pages) ==> Distinct(out)
  {
    out := pages;
    var i := low;
    while i <= high
      invariant i == low || low <= i <= high + 1
      invariant forall x :: x in out <==> x in pages || low <= x < i
      invariant Distinct(pages) ==> Distinct(out)
      decreases high - i
    {
      if i !in out {
        out := out + [i];
      }
      i := i + 1;
    }
  }

  /** Whatever the parser accepts names only pages of the document. */
  lemma RemovalInDocument(s: string, totalPages: int)
    requires RemovalPagesOf(s, totalPages).Success?
    ensures forall x :: x in RemovalPagesOf(s, totalPages).value ==> 1 <= x <= totalPages
  {
    var parts := Split(s, ',');
    RemovalTokensSucceed(s, totalPages);
    RemovalMembership(s, totalPages);
    forall x | x in RemovalPagesOf(s, totalPages).value ensures 1 <= x <= totalPages {
      var i :| 0 <= i < |parts| &&
        TokenBounds(parts[i], totalPages).value.low <= x <= TokenBounds(parts[i], totalPages).value.high;
    }
  }

  /** An accepted list means every token passed its checks. */
  lemma RemovalTokensSucceed(s: string, totalPages: int)
    requires RemovalPagesOf(s, totalPages).Success?
    ensures forall i :: 0 <= i < |Split(s, ',')| ==> TokenBounds(Split(s, ',')[i], totalPages).Success?
  {
    var tokens := TokenBoundsEach(s, totalPages);
    assert Collect(tokens).Success?;
  }

  /** A number is returned exactly when some token names it. */
  lemma RemovalMembership(s: string, totalPages: int)
    requires RemovalPagesOf(s, totalPages).Success?
    ensures forall x :: x in RemovalPagesOf(s, totalPages).value <==>
      exists i :: 0 <= i < |Split(s, ',')| &&
        TokenBounds(Split(s, ',')[i], totalPages).value.low <= x <= TokenBounds(Split(s, ',')[i], totalPages).value.high
  {
    var parts := Split(s, ',');
    var tokens := TokenBoundsEach(s, totalPages);
    var bounds := Collect(tokens).value;
    var r := RemovalPagesOf(s, totalPages).value;
    assert SameValues(r, Covered(bounds));
    assert forall i :: 0 <= i < |parts| ==> bounds[i] == TokenBounds(parts[i], totalPages).value;
    MembershipByBounds(parts, bounds, r, totalPages);
  }

  lemma MembershipByBounds(parts: seq<string>, bounds: seq<Bounds>, r: seq<int>, totalPages: int)
    requires |bounds| == |parts| && SameValues(r, Covered(bounds))
    requires forall i :: 0 <= i < |parts| ==> TokenBounds(parts[i], totalPages).Success?
    requires forall i :: 0 <= i < |parts| ==> bounds[i] == TokenBounds(parts[i], totalPages).value
    ensures forall x :: x in r <==>
      exists i :: 0 <= i < |parts| &&
        TokenBounds(parts[i], totalPages).value.low <= x <= TokenBounds(parts[i], totalPages).value.high
  {
    forall x | x in r
      ensures exists i :: 0 <= i < |parts| && TokenBounds(parts[i], totalPages).value.low <= x <= TokenBounds(parts[i], totalPages).value.high
    {
      var i :| 0 <= i < |bounds| && bounds[i].low <= x <= bounds[i].high;
      assert TokenBounds(parts[i], totalPages).value == bounds[i];
    }
  }

  /** The parse fails exactly when some token fails its checks. */
  lemma RemovalFailsIff(s: string, totalPages: int)
    ensures RemovalPagesOf(s, totalPages).Failure? <==>
      exists i :: 0 <= i < |Split(s, ',')| && TokenBounds(Split(s, ',')[i], totalPages).Failure?
  {
    var tokens := TokenBoundsEach(s, totalPages);
    if FirstFailure(tokens).Some? {
      var k := FirstFailure(tokens).value;
      assert TokenBounds(Split(s, ',')[k], totalPages).Failure?;
    }
  }

  lemma {:induction false} IntervalLength(low: int, high: int)
    ensures |Interval(low, high)| == if high < low then 0 else high - low + 1
    decreases high - low
  {
    if low <= high {
      IntervalLength(low, high - 1);
    }
  }

  /** A single range `a-b` inside the document names the pages a to b. */
  lemma SingleRangeNamesItsPages(a: nat, b: nat, totalPages: int)
    requires 1 <= a <= b <= totalPages
    ensures RemovalPagesOf(IntToString(a) + "-" + IntToString(b), totalPages) == Success(Interval(a, b))
  {
    var t := IntToString(a) + "-" + IntToString(b);
    CommaFree(a, a, b);
    SplitWithoutSeparator(t, ',');
    TokenOfPair(a, b, totalPages);
    var tokens := TokenBoundsEach(t, totalPages);
    assert tokens == [Success(Bounds(a, b))];
    CollectAllSucceed(tokens, [Bounds(a, b)]);
    assert [Bounds(a, b)][..0] == [];
    assert Covered([Bounds(a, b)]) == Interval(a, b);
    IntervalAscending(a, b);
    SortedSetOfAscending(Interval(a, b));
  }

  /** A page and a range holding it collapse to the range: `1,1-3` gives
      pages 1, 2 and 3. */
  lemma OverlappingTokensCollapse(p: nat, a: nat, b: nat, totalPages: int)
    requires 1 <= a <= p <= b <= totalPages
    ensures RemovalPagesOf(IntToString(p) + "," + (IntToString(a) + "-" + IntToString(b)), totalPages)
         == Success(Interval(a, b))
  {
    var s := IntToString(p) + "," + (IntToString(a) + "-" + IntToString(b));
    var bounds := [Bounds(p, p), Bounds(a, b)];
    OverlapTokens(p, a, b, totalPages);
    CollectAllSucceed(TokenBoundsEach(s, totalPages), bounds);
    CoveredOverlap(p, a, b);
    SortedSetOfSameValues(Covered(bounds), Interval(a, b));
    IntervalAscending(a, b);
    SortedSetOfAscending(Interval(a, b));
  }

  lemma OverlapTokens(p: nat, a: nat, b: nat, totalPages: int)
    requires 1 <= a <= b <= totalPages && 1 <= p <= totalPages
    ensures TokenBoundsEach(IntToString(p) + "," + (IntToString(a) + "-" + IntToString(b)), totalPages)
         == [Success(Bounds(p, p)), Success(Bounds(a, b))]
  {
    var x := IntToString(p);
    var y := IntToString(a) + "-" + IntToString(b);
    CommaFree(p, a, b);
    TokensOfTwo(x, y, totalPages);
    TokenOfPage(p, totalPages);
    TokenOfPair(a, b, totalPages);
  }

  /** Two comma-free tokens joined by a comma are checked one by one. */
  lemma TokensOfTwo(x: string, y: string, totalPages: int)
    requires ',' !in x && ',' !in y
    ensures TokenBoundsEach(x + "," + y, totalPages) == [TokenBounds(x, totalPages), TokenBounds(y, totalPages)]
  {
    assert x + "," + y == x + [','] + y;
    SplitTwo(x, ',', y);
  }

  lemma CommaFree(p: nat, a: nat, b: nat)
    ensures ',' !in IntToString(p) && ',' !in IntToString(a) + "-" + IntToString(b)
  {
    DecimalTextDigits(p);
    DecimalTextDigits(a);
    DecimalTextDigits(b);
    NotInDigits(IntToString(p), ',');
    NotInDigits(IntToString(a), ',');
    NotInDigits(IntToString(b), ',');
  }

  lemma CoveredOverlap(p: int, a: int, b: int)
    requires a <= p <= b
    ensures SameValues(Covered([Bounds(p, p), Bounds(a, b)]), Interval(a, b))
  {
    var bounds := [Bounds(p, p), Bounds(a, b)];
    assert bounds[..1] == [Bounds(p, p)];
    assert [Bounds(p, p)][..0] == [];
    assert Covered(bounds) == Covered([Bounds(p, p)]) + Interval(a, b);
  }

  /** `a-b` with 1 <= a <= b <= n names the pages a to b. */
  lemma TokenOfPair(a: nat, b: nat, totalPages: int)
    requires 1 <= a <= b <= totalPages
    ensures TokenBounds(IntToString(a) + "-" + IntToString(b), totalPages) == Success(Bounds(a, b))
  {
    DashedPairText(a, b);
    DecimalText(a);
    DecimalText(b);
  }

  /** A single number p with 1 <= p <= n names page p. */
  lemma TokenOfPage(p: nat, totalPages: int)
    requires 1 <= p <= totalPages
    ensures TokenBounds(IntToString(p), totalPages) == Success(Bounds(p, p))
  {
    DecimalText(p);
    NotInDigits(IntToString(p), '-');
  }

  /** A range written backwards is refused for that reason before its
      bounds are looked at: `20-5` on a 10-page document is a start after
      its end, not a range outside the document. */
  lemma BackwardsRangeRejectedFirst(a: nat, b: nat, totalPages: int)
    requires b < a
    ensures TokenBounds(IntToString(a) + "-" + IntToString(b), totalPages) == Failure(StartAfterEnd(a, b))
  {
    DashedPairText(a, b);
    DecimalText(a);
    DecimalText(b);
  }

  /** The range checks of a range inside 1..n on one side only. */
  lemma RangeOutsideRejected(a: nat, b: nat, totalPages: int)
    requires a <= b && (a < 1 || b > totalPages)
    ensures TokenBounds(IntToString(a) + "-" + IntToString(b), totalPages)
         == Failure(RangeOutsidePdf(a, b, totalPages))
  {
    DashedPairText(a, b);
    DecimalText(a);
    DecimalText(b);
  }

  /** A single number outside 1..n, such as page 0, is refused. */
  lemma PageOutsideRejected(p: nat, totalPages: int)
    requires p < 1 || p > totalPages
    ensures TokenBounds(IntToString(p), totalPages) == Failure(PageOutsidePdf(p, totalPages))
  {
    DecimalText(p);
    NotInDigits(IntToString(p), '-');
  }

  /** `-1` holds a dash, so it is read as a range with an empty start and
      refused as an invalid range. */
  lemma NegativePageIsInvalidRange(p: nat, totalPages: int)
    ensures TokenBounds("-" + IntToString(p), totalPages) == Failure(InvalidRange("-" + IntToString(p)))
  {
    var y := IntToString(p);
    var t := "-" + y;
    DecimalTextDigits(p);
    assert IsDigit(t[|t| - 1]);
    TrimUntouched(t);
    assert t[0] == '-';
    NotInDigits(y, '-');
    SplitTwo("", '-', y);
    assert "" + ['-'] + y == t;
    assert Trim("") == "";
    ParseIntNoDigits("");
  }

  /** A token without digits or dashes is not a page number. */
  lemma WordIsInvalidPageNumber(w: string, totalPages: int)
    requires '-' !in w && forall i :: 0 <= i < |w| ==> !IsDigit(w[i])
    ensures TokenBounds(w, totalPages) == Failure(InvalidPageNumber(Trim(w)))
  {
    TrimKeepsNoDigits(w);
    ParseIntNoDigits(Trim(w));
    TrimInside(w);
  }

  /* ---------------------------------------------------------------------
     removePages
     --------------------------------------------------------------------- */

  datatype RemoveError =
    | LoadFailed(cause: LoadError)
    | InvalidPageNumbers(invalid: seq<int>, totalPages: nat)
    | CannotRemoveAllPages

  /** The object `removePages` returns, the new document standing for its
      bytes. */
  datatype RemoveOutput = RemoveOutput(
    pages: Document,
    originalPageCount: nat,
    removedPageCount: nat,
    remainingPageCount: nat,
    removedPages: seq<int>)

  /** The requested pages outside 1..n, in their order. */
  function InvalidPagesOf(pages: seq<int>, totalPages: int): (bad: seq<int>)
    ensures forall p :: p in bad <==> p in pages && (p < 1 || p > totalPages)
  {
    if |pages| == 0 then []
    else
      (if pages[0] < 1 || pages[0] > totalPages then [pages[0]] else [])
      + InvalidPagesOf(pages[1..], totalPages)
  }

  /** Page numbers 1..i that are not to be removed, ascending. */
  function KeptNumbers(remove: seq<int>, i: nat): (r: seq<int>)
    ensures forall x :: x in r <==> 1 <= x <= i && x !in remove
  {
    if i == 0 then [] else KeptNumbers(remove, i - 1) + (if i in remove then [] else [i])
  }

  /** The pages among the first `i` of `doc` that are kept, in order. */
  function KeptPages(doc: Document, remove: seq<int>, i: nat): (r: Document)
    requires i <= |doc|
    ensures |r| == |KeptNumbers(remove, i)|
  {
    if i == 0 then [] else KeptPages(doc, remove, i - 1) + (if i in remove then [] else [doc[i - 1]])
  }

  /** What `removePages` computes once the document is open. */
  function RemovePlan(doc: Document, remove: seq<int>): (r: Result<RemoveOutput, RemoveError>)
    ensures r.Success? ==> r.value.originalPageCount == |doc| && r.value.removedPages == remove
    ensures r.Success? ==> r.value.removedPageCount == |remove| && r.value.remainingPageCount == |r.value.pages|
  {
    var n := |doc|;
    var invalid := InvalidPagesOf(remove, n);
    if |invalid| > 0 then Failure(InvalidPageNumbers(invalid, n))
    else if |remove| >= n then Failure(CannotRemoveAllPages)
    else
      var kept := KeptPages(doc, remove, n);
      Success(RemoveOutput(kept, n, |remove|, |kept|, remove))
  }

  /** `removePages(pdfPath, pagesToRemove)`. */
  method RemovePages(disk: Disk, pdfPath: string, pagesToRemove: seq<int>)
    returns (r: Result<RemoveOutput, RemoveError>)
    ensures Load(disk, pdfPath).Failure? ==> r == Failure(LoadFailed(Load(disk, pdfPath).error))
    ensures Load(disk, pdfPath).Success? ==> r == RemovePlan(Load(disk, pdfPath).value, pagesToRemove)
  {
    var loaded := Load(disk, pdfPath);
    if loaded.Failure? {
      return Failure(LoadFailed(loaded.error));
    }
    var pdfDoc := loaded.value;
    var totalPages := |pdfDoc|;

    var invalidPages := InvalidPagesOf(pagesToRemove, totalPages);
    if |invalidPages| > 0 {
      return Failure(InvalidPageNumbers(invalidPages, totalPages));
    }
    if |pagesToRemove| >= totalPages {
      return Failure(CannotRemoveAllPages);
    }

    var newPdf := KeepPages(pdfDoc, pagesToRemove);
    return Success(RemoveOutput(newPdf, totalPages, |pagesToRemove|, |newPdf|, pagesToRemove));
  }

  /** The loop of `removePages` that copies every page not listed. */
  method KeepPages(pdfDoc: Document, pagesToRemove: seq<int>) returns (newPdf: Document)
    ensures newPdf == KeptPages(pdfDoc, pagesToRemove, |pdfDoc|)
  {
    newPdf := [];
    for i := 0 to |pdfDoc|
      invariant newPdf == KeptPages(pdfDoc, pagesToRemove, i)
    {
      var pageNumber := i + 1;
      if pageNumber !in pagesToRemove {
        newPdf := newPdf + [pdfDoc[i]];
      }
    }
  }

  /** The kept pages are the pages whose numbers are kept, in order. */
  lemma {:induction false} KeptPagesAreKeptNumbers(doc: Document, remove: seq<int>, i: nat)
    requires i <= |doc|
    ensures forall k :: 0 <= k < |KeptPages(doc, remove, i)| ==>
      1 <= KeptNumbers(remove, i)[k] <= i && KeptPages(doc, remove, i)[k] == doc[KeptNumbers(remove, i)[k] - 1]
  {
    if i > 0 {
      KeptPagesAreKeptNumbers(doc, remove, i - 1);
      var nums := KeptNumbers(remove, i - 1);
      var pages := KeptPages(doc, remove, i - 1);
      if i !in remove {
        var grownNums := nums + [i];
        var grownPages := pages + [doc[i - 1]];
        assert KeptNumbers(remove, i) == grownNums;
        assert KeptPages(doc, remove, i) == grownPages;
        forall k | 0 <= k < |grownPages|
          ensures 1 <= grownNums[k] <= i && grownPages[k] == doc[grownNums[k] - 1]
        {
          if k < |pages| {
            assert grownNums[k] == nums[k] && grownPages[k] == pages[k];
          }
        }
      } else {
        assert KeptNumbers(remove, i) == nums;
        assert KeptPages(doc, remove, i) == pages;
      }
    }
  }

  lemma {:induction false} KeptNumbersAscending(remove: seq<int>, i: nat)
    ensures StrictlyAscending(KeptNumbers(remove, i))
  {
    if i > 0 {
      KeptNumbersAscending(remove, i - 1);
      var nums := KeptNumbers(remove, i - 1);
      if i !in remove {
        assert KeptNumbers(remove, i) == nums + [i];
        AscendingSnoc(nums, i);
      }
    }
  }

  lemma {:induction false} NoInvalidPages(pages: seq<int>, totalPages: int)
    requires forall p :: p in pages ==> 1 <= p <= totalPages
    ensures InvalidPagesOf(pages, totalPages) == []
  {
    if |pages| > 0 {
      assert pages[0] in pages;
      assert forall p :: p in pages[1..] ==> p in pages;
      NoInvalidPages(pages[1..], totalPages);
    }
  }

  /** Removal fails on bounds exactly when some requested page is outside
      the document, and then names every such page. */
  lemma RemoveFailsOnBadPageIff(doc: Document, remove: seq<int>)
    ensures RemovePlan(doc, remove).Failure? && RemovePlan(doc, remove).error.InvalidPageNumbers?
        <==> exists p :: p in remove && (p < 1 || p > |doc|)
    ensures RemovePlan(doc, remove).Failure? && RemovePlan(doc, remove).error.InvalidPageNumbers? ==>
        RemovePlan(doc, remove).error == InvalidPageNumbers(InvalidPagesOf(remove, |doc|), |doc|)
  {
    var bad := InvalidPagesOf(remove, |doc|);
    if bad != [] {
      assert bad[0] in bad;
    }
  }

  /** The result holds exactly the pages not removed, in their original
      order: page numbers ascending, each number kept iff it is not listed. */
  lemma RemoveKeepsComplement(doc: Document, remove: seq<int>)
    requires RemovePlan(doc, remove).Success?
    ensures var kept := KeptNumbers(remove, |doc|);
      && StrictlyAscending(kept)
      && (forall x :: x in kept <==> 1 <= x <= |doc| && x !in remove)
      && |RemovePlan(doc, remove).value.pages| == |kept|
      && forall k :: 0 <= k < |kept| ==>
           1 <= kept[k] <= |doc| && RemovePlan(doc, remove).value.pages[k] == doc[kept[k] - 1]
  {
    KeptNumbersAscending(remove, |doc|);
    KeptPagesAreKeptNumbers(doc, remove, |doc|);
    PlanKeepsPages(doc, remove);
  }

  lemma PlanKeepsPages(doc: Document, remove: seq<int>)
    requires RemovePlan(doc, remove).Success?
    ensures RemovePlan(doc, remove).value.pages == KeptPages(doc, remove, |doc|)
  {
  }

  /** Pages 1..i split into those kept and the distinct listed ones. */
  lemma {:induction false} KeptCount(remove: seq<int>, i: nat)
    ensures |KeptNumbers(remove, i)| + |ListedUpTo(remove, i)| == i
  {
    if i > 0 {
      KeptCount(remove, i - 1);
      ListedStep(remove, i);
    } else {
      assert ListedUpTo(remove, 0) == {};
    }
  }

  lemma ListedStep(remove: seq<int>, i: nat)
    requires i > 0
    ensures |ListedUpTo(remove, i)| == |ListedUpTo(remove, i - 1)| + (if i in remove then 1 else 0)
  {
    var before := ListedUpTo(remove, i - 1);
    assert i !in before;
    if i in remove {
      assert ListedUpTo(remove, i) == before + {i};
    } else {
      assert ListedUpTo(remove, i) == before;
    }
  }

  /** The listed page numbers in 1..i, as a set. */
  function ListedUpTo(remove: seq<int>, i: nat): set<int> {
    set x | x in remove && 1 <= x <= i
  }

  /** A successful removal always leaves at least one page, even when the
      list repeats a page. */
  lemma RemoveLeavesAPage(doc: Document, remove: seq<int>)
    requires RemovePlan(doc, remove).Success?
    ensures RemovePlan(doc, remove).value.remainingPageCount >= 1
  {
    KeptCount(remove, |doc|);
    var listed := ListedUpTo(remove, |doc|);
    assert Elements(remove) == listed + (Elements(remove) - listed);
    ElementsBound(remove);
  }

  /** The guard counts list entries, not distinct pages: removing page 1
      twice from a two-page document is refused, although page 2 would be
      left. */
  lemma RepeatedPageCountsTwice(doc: Document)
    requires |doc| == 2
    ensures RemovePlan(doc, [1, 1]) == Failure(CannotRemoveAllPages)
    ensures KeptNumbers([1, 1], 2) == [2]
  {
    NoInvalidPages([1, 1], 2);
    assert 1 in [1, 1] && 2 !in [1, 1];
  }

  /** For a list without repetitions of pages of the document, the pages
      left are the page count minus the list length, and removal is refused
      exactly when every page is listed. */
  lemma RemoveCountForDistinctList(doc: Document, remove: seq<int>)
    requires Distinct(remove) && forall p :: p in remove ==> 1 <= p <= |doc|
    ensures RemovePlan(doc, remove).Success? ==>
      RemovePlan(doc, remove).value.remainingPageCount == |doc| - |remove|
    ensures RemovePlan(doc, remove) == Failure(CannotRemoveAllPages) <==> KeptNumbers(remove, |doc|) == []
  {
    KeptCount(remove, |doc|);
    assert ListedUpTo(remove, |doc|) == Elements(remove);
    DistinctCardinality(remove);
    NoInvalidPages(remove, |doc|);
  }
}
