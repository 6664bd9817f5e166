/** The page's running bill total and the element that shows it. */
module BillTotal {
  import opened JsNumber
  import opened Receipt

  /** The running totals the display shows, one after each line in turn. */
  function RunningTotals(total: Num, lines: seq<string>): (shown: seq<Num>)
    decreases |lines|
  {
    if lines == [] then []
    else RunningTotals(total, lines[..|lines| - 1]) + [Accumulate(total, lines)]
  }

  /** After the k-th line the display shows the total of the first k + 1 lines. */
  lemma {:induction false} RunningTotalsAt(total: Num, lines: seq<string>)
    ensures |RunningTotals(total, lines)| == |lines|
    ensures forall k :: 0 <= k < |lines| ==> RunningTotals(total, lines)[k] == Accumulate(total, lines[..k + 1])
    decreases |lines|
  {
    if lines != [] {
      var init := lines[..|lines| - 1];
      RunningTotalsAt(total, init);
      forall k | 0 <= k < |init|
        ensures RunningTotals(total, lines)[k] == Accumulate(total, lines[..k + 1])
      {
        assert init[..k + 1] == lines[..k + 1];
      }
      assert lines[..|lines|] == lines;
    }
  }

  /** The global `billTotalPrice` together with the text of the `<span>` that
      `updateBillTotalPrice` writes it to. */
  class Bill {
    /** `billTotalPrice`. */
    var total: Num
    /** The number the `<span>` shows. */
    var display: Num
    /** Every value written to the `<span>`, oldest first. */
    ghost var shown: seq<Num>

    /** Between events the `<span>` shows the current total. */
    ghost predicate Valid()
      reads this
    {
      display == total
    }

    /** Page load: the total starts at 0 and is rendered once. */
    constructor ()
      ensures Valid()
      ensures total == Val(0.0) && display == Val(0.0) && shown == [Val(0.0)]
    {
      total := Val(0.0);
      display := Val(0.0);
      shown := [Val(0.0)];
    }

    /** `updateBillTotalPrice`: copy the total into the display. */
    method UpdateBillTotalPrice()
      modifies this`display, this`shown
      ensures Valid()
      ensures display == total
      ensures shown == old(shown) + [total]
    {
      display := total;
      shown := shown + [total];
    }

    /** `reset`: the total becomes 0 whatever it was, NaN included, and the
        display shows it. */
    method Reset()
      modifies this
      ensures Valid()
      ensures total == Val(0.0) && display == Val(0.0)
      ensures shown == old(shown) + [Val(0.0)]
    {
      total := Val(0.0);
      UpdateBillTotalPrice();
    }

    /** The line loop of `extractTextFromImageFile` over the recognized lines:
        each total line adds its amount, and the display is refreshed after
        every line, matched or not. */
    method AddRecognizedLines(lines: seq<string>)
      modifies this
      ensures total == Accumulate(old(total), lines)
      ensures shown == old(shown) + RunningTotals(old(total), lines)
      ensures display == if lines == [] then old(display) else total
      ensures old(Valid()) || lines != [] ==> Valid()
    {
      var i := 0;
      while i < |lines|
        invariant 0 <= i <= |lines|
        invariant total == Accumulate(old(total), lines[..i])
        invariant shown == old(shown) + RunningTotals(old(total), lines[..i])
        invariant display == if i == 0 then old(display) else total
      {
        var line := lines[i];
        if IsTotalLine(line) {
          var amount := ParseNumber(StripAmount(line));
          total := Add(total, amount);
        }
        assert lines[..i + 1][..i] == lines[..i];
        UpdateBillTotalPrice();
        i := i + 1;
      }
      assert lines[..i] == lines;
    }
  }

  /** Two captures in a row leave the same total as one capture of all their
      lines, and reset clears any NaN: a client's view of the class. */
  method CaptureTwiceThenReset(first: seq<string>, second: seq<string>) returns (before: Num, after: Num)
    ensures before == Accumulate(Val(0.0), first + second)
    ensures after == Val(0.0)
  {
    var bill := new Bill();
    bill.AddRecognizedLines(first);
    bill.AddRecognizedLines(second);
    AccumulateConcat(Val(0.0), first, second);
    before := bill.total;
    bill.Reset();
    after := bill.display;
  }
}
