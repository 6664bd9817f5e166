/** The receipt-total reduction of the line loop: which recognized lines count,
    what is left of a line once the amount filter has run, and the running sum
    over a sequence of lines. */
module Receipt {
  import opened JsChars
  import opened JsNumber

  /** The word the line loop looks for. */
  const Marker: string := "TOTAL"

  /** Case folding of a non-Unicode `/i` regular expression as far as ASCII
      letters go: a character matches an ASCII letter of the pattern exactly
      when it is that letter in either case (a non-ASCII character never
      canonicalises to an ASCII one). */
  function AsciiUpper(c: char): char {
    if 'a' <= c <= 'z' then (c as int - 32) as char else c
  }

  predicate MatchesAt(s: string, i: nat)
    requires i + |Marker| <= |s|
  {
    forall k :: 0 <= k < |Marker| ==> AsciiUpper(s[i + k]) == Marker[k]
  }

  /** The reference meaning of `/TOTAL/i`: some window of five characters
      spells TOTAL in any mix of case. */
  ghost predicate ContainsMarker(s: string) {
    exists i: nat :: i + |Marker| <= |s| && MatchesAt(s, i)
  }

  /** The regular-expression search: try each start position from `i` on. */
  predicate SearchFrom(s: string, i: nat)
    decreases |s| - i
  {
    i + |Marker| <= |s| && (MatchesAt(s, i) || SearchFrom(s, i + 1))
  }

  /** `lineText.text.match(/TOTAL/i)` is truthy. */
  predicate IsTotalLine(s: string) {
    SearchFrom(s, 0)
  }

  lemma {:induction false} SearchFromFinds(s: string, i: nat)
    ensures SearchFrom(s, i) <==> exists j: nat :: i <= j && j + |Marker| <= |s| && MatchesAt(s, j)
    decreases |s| - i
  {
    if i + |Marker| <= |s| {
      SearchFromFinds(s, i + 1);
      if exists j: nat :: i <= j && j + |Marker| <= |s| && MatchesAt(s, j) {
        var j: nat :| i <= j && j + |Marker| <= |s| && MatchesAt(s, j);
        if j > i {
          assert i + 1 <= j;
        }
      }
    }
  }

  /** A line is a total line exactly when it contains "total" in any case. */
  lemma IsTotalLineContains(s: string)
    ensures IsTotalLine(s) <==> ContainsMarker(s)
  {
    SearchFromFinds(s, 0);
  }

  /** Two lines that differ only in the case of ASCII letters are both total
      lines or both not. */
  lemma TotalLineIgnoresCase(s: string, t: string)
    requires |s| == |t|
    requires forall i :: 0 <= i < |s| ==> AsciiUpper(s[i]) == AsciiUpper(t[i])
    ensures IsTotalLine(s) <==> IsTotalLine(t)
  {
    IsTotalLineContains(s);
    IsTotalLineContains(t);
    forall i: nat | i + |Marker| <= |s|
      ensures MatchesAt(s, i) <==> MatchesAt(t, i)
    {
    }
  }

  lemma TotalLineExamples()
    ensures IsTotalLine("total") && IsTotalLine("Total") && IsTotalLine("ToTaL")
  {
    assert MatchesAt("total", 0);
    assert MatchesAt("Total", 0);
    assert MatchesAt("ToTaL", 0);
  }

  lemma SubtotalIsTotalLine()
    ensures IsTotalLine("SUBTOTAL: $10.00")
  {
    assert MatchesAt("SUBTOTAL: $10.00", 3);
    SearchFromFinds("SUBTOTAL: $10.00", 0);
  }

  lemma BrokenWordIsNotTotalLine()
    ensures !IsTotalLine("TOTA L")
  {
    IsTotalLineContains("TOTA L");
    assert !MatchesAt("TOTA L", 0) by { assert AsciiUpper("TOTA L"[4]) != Marker[4]; }
    assert !MatchesAt("TOTA L", 1) by { assert AsciiUpper("TOTA L"[1]) != Marker[0]; }
  }

  /** A character the amount filter `[\sa-zA-Z,$():]` removes. Its `i` flag
      changes nothing: the class already holds both cases of every ASCII
      letter, and a non-ASCII character never folds onto an ASCII one. */
  predicate IsStripped(c: char) {
    IsWhiteSpace(c) || IsAsciiLetter(c) || c == ',' || c == '$' || c == '(' || c == ')' || c == ':'
  }

  /** The amount left of a line: every removable character deleted, the rest
      kept in order. */
  function StripAmount(s: string): (r: string)
    ensures |r| <= |s|
    ensures forall i :: 0 <= i < |r| ==> !IsStripped(r[i])
    decreases |s|
  {
    if s == [] then [] else (if IsStripped(s[0]) then [] else [s[0]]) + StripAmount(s[1..])
  }

  /** Stripping works character by character: it distributes over concatenation. */
  lemma {:induction false} StripConcat(a: string, b: string)
    ensures StripAmount(a + b) == StripAmount(a) + StripAmount(b)
    decreases |a|
  {
    if a != [] {
      var head := if IsStripped(a[0]) then [] else [a[0]];
      assert (a + b)[0] == a[0];
      assert (a + b)[1..] == a[1..] + b;
      StripConcat(a[1..], b);
      calc {
        StripAmount(a + b);
        head + StripAmount(a[1..] + b);
        head + (StripAmount(a[1..]) + StripAmount(b));
        (head + StripAmount(a[1..])) + StripAmount(b);
        StripAmount(a) + StripAmount(b);
      }
    } else {
      assert a + b == b;
    }
  }

  /** Characters the filter does not name are all kept, so stripping twice
      is stripping once. */
  lemma {:induction false} StripKeeps(s: string)
    requires forall i :: 0 <= i < |s| ==> !IsStripped(s[i])
    ensures StripAmount(s) == s
    decreases |s|
  {
    if s != [] {
      StripKeeps(s[1..]);
    }
  }

  /** Each kept character occurs as often as in the line, each removed one never. */
  lemma {:induction false} StripCounts(s: string, c: char)
    ensures multiset(StripAmount(s))[c] == if IsStripped(c) then 0 else multiset(s)[c]
    decreases |s|
  {
    if s != [] {
      StripCounts(s[1..], c);
      assert s == [s[0]] + s[1..];
      assert multiset(s) == multiset{s[0]} + multiset(s[1..]);
    }
  }

  /** A line made only of removable characters strips to nothing. */
  lemma {:induction false} StripAllRemoved(s: string)
    requires forall i :: 0 <= i < |s| ==> IsStripped(s[i])
    ensures StripAmount(s) == []
    decreases |s|
  {
    if s != [] {
      StripAllRemoved(s[1..]);
    }
  }

  /** A label of removable characters before an amount is dropped whole. */
  lemma StripLabel(prefix: string, amount: string)
    requires forall i :: 0 <= i < |prefix| ==> IsStripped(prefix[i])
    requires forall i :: 0 <= i < |amount| ==> !IsStripped(amount[i])
    ensures StripAmount(prefix + amount) == amount
  {
    StripConcat(prefix, amount);
    StripAllRemoved(prefix);
    StripKeeps(amount);
    assert [] + amount == amount;
  }

  lemma StripDollarAmount()
    ensures StripAmount("TOTAL: $12.50") == "12.50"
  {
    assert "TOTAL: $12.50" == "TOTAL: $" + "12.50";
    StripLabel("TOTAL: $", "12.50");
  }

  lemma StripLettersOnly()
    ensures StripAmount("TOTAL abc") == ""
  {
    var line := "TOTAL abc";
    forall i | 0 <= i < |line|
      ensures IsStripped(line[i])
    {
      assert IsAsciiLetter(line[i]) || line[i] == ' ';
    }
    StripAllRemoved(line);
  }

  /** `Number(amount)` for a line: the stripped text read as a number. */
  function LineAmount(line: string): Num {
    ParseNumber(StripAmount(line))
  }

  /** One pass of the loop body on the running total. */
  function Step(total: Num, line: string): Num {
    if IsTotalLine(line) then Add(total, LineAmount(line)) else total
  }

  /** The running total after the loop has gone over `lines` in order. */
  function Accumulate(total: Num, lines: seq<string>): Num
    decreases |lines|
  {
    if lines == [] then total
    else Step(Accumulate(total, lines[..|lines| - 1]), lines[|lines| - 1])
  }

  /** The amounts of the total lines, in line order. */
  function Amounts(lines: seq<string>): seq<Num>
    decreases |lines|
  {
    if lines == [] then []
    else
      var last := lines[|lines| - 1];
      Amounts(lines[..|lines| - 1]) + if IsTotalLine(last) then [LineAmount(last)] else []
  }

  /** The sum of a sequence of numbers, added left to right from 0. */
  function Sum(xs: seq<Num>): Num
    decreases |xs|
  {
    if xs == [] then Val(0.0) else Add(Sum(xs[..|xs| - 1]), xs[|xs| - 1])
  }

  /** The sum is NaN exactly when one of the numbers is. */
  lemma {:induction false} SumIsNaN(xs: seq<Num>)
    ensures Sum(xs).NaN? <==> exists i :: 0 <= i < |xs| && xs[i].NaN?
    decreases |xs|
  {
    if xs != [] {
      var init := xs[..|xs| - 1];
      SumIsNaN(init);
      assert forall i :: 0 <= i < |init| ==> init[i] == xs[i];
    }
  }

  /** The loop adds to the prior total the sum of the amounts of the total
      lines, subtotal lines included. */
  lemma {:induction false} AccumulateIsSum(total: Num, lines: seq<string>)
    ensures Accumulate(total, lines) == Add(total, Sum(Amounts(lines)))
    decreases |lines|
  {
    if lines != [] {
      var init, last := lines[..|lines| - 1], lines[|lines| - 1];
      AccumulateIsSum(total, init);
      if IsTotalLine(last) {
        var xs := Amounts(lines);
        assert xs == Amounts(init) + [LineAmount(last)];
        assert xs[..|xs| - 1] == Amounts(init);
        AddAssociative(total, Sum(Amounts(init)), LineAmount(last));
      } else {
        assert Amounts(lines) == Amounts(init) + [];
        assert Amounts(lines) == Amounts(init);
      }
    }
  }

  /** Two batches of lines in a row give the same total as one batch. */
  lemma {:induction false} AccumulateConcat(total: Num, a: seq<string>, b: seq<string>)
    ensures Accumulate(total, a + b) == Accumulate(Accumulate(total, a), b)
    decreases |b|
  {
    if b == [] {
      assert a + b == a;
    } else {
      assert (a + b)[..|a + b| - 1] == a + b[..|b| - 1];
      AccumulateConcat(total, a, b[..|b| - 1]);
    }
  }

  /** Lines that are not total lines leave the total as it was. */
  lemma {:induction false} NoTotalLineNoChange(total: Num, lines: seq<string>)
    requires forall i :: 0 <= i < |lines| ==> !IsTotalLine(lines[i])
    ensures Accumulate(total, lines) == total
    decreases |lines|
  {
    if lines != [] {
      NoTotalLineNoChange(total, lines[..|lines| - 1]);
    }
  }

  /** Once the total is NaN, no line brings it back. */
  lemma {:induction false} NaNStays(lines: seq<string>)
    ensures Accumulate(NaN, lines) == NaN
    decreases |lines|
  {
    if lines != [] {
      NaNStays(lines[..|lines| - 1]);
    }
  }

  /** The total ends NaN exactly when it started NaN or some total line's
      amount is NaN. */
  lemma {:induction false} AccumulateIsNaN(total: Num, lines: seq<string>)
    ensures Accumulate(total, lines).NaN? <==>
      total.NaN? || exists i :: 0 <= i < |lines| && IsTotalLine(lines[i]) && LineAmount(lines[i]).NaN?
    decreases |lines|
  {
    if lines != [] {
      var init := lines[..|lines| - 1];
      AccumulateIsNaN(total, init);
      assert forall i :: 0 <= i < |init| ==> init[i] == lines[i];
    }
  }

  /** A total line whose amount is NaN makes every later running total NaN. */
  lemma PoisonedAfter(total: Num, lines: seq<string>, i: nat, j: nat)
    requires i < j <= |lines|
    requires IsTotalLine(lines[i]) && LineAmount(lines[i]).NaN?
    ensures Accumulate(total, lines[..j]) == NaN
  {
    assert lines[..j] == lines[..i + 1] + lines[i + 1..j];
    AccumulateConcat(total, lines[..i + 1], lines[i + 1..j]);
    assert lines[..i + 1][..i] == lines[..i];
    NaNStays(lines[i + 1..j]);
  }

  /** A total line with nothing left after stripping adds 0. */
  lemma EmptyAmountAddsNothing(total: Num, line: string)
    requires StripAmount(line) == []
    ensures Step(total, line) == total
  {
  }

  /** A prefix of removable characters followed by an amount: the line's
      amount is that amount read as a number. */
  lemma LabelledAmount(prefix: string, amount: string)
    requires forall i :: 0 <= i < |prefix| ==> IsStripped(prefix[i])
    requires forall i :: 0 <= i < |amount| ==> !IsStripped(amount[i])
    ensures NoLetterOrSpace(amount) && LineAmount(prefix + amount) == ParseNumber(amount)
  {
    StripLabel(prefix, amount);
  }

  lemma AccumulateOne(total: Num, line: string)
    ensures Accumulate(total, [line]) == Step(total, line)
  {
    assert [line][..0] == [];
  }

  lemma AccumulateTwo(total: Num, first: string, second: string)
    ensures Accumulate(total, [first, second]) == Step(Step(total, first), second)
  {
    var lines := [first, second];
    assert lines[..1] == [first];
    AccumulateOne(total, first);
    assert Accumulate(total, lines) == Step(Accumulate(total, lines[..1]), second);
  }

  /** Two total lines in a row add their two amounts in turn. */
  lemma AddTwoTotalLines(total: Num, first: string, second: string, x: Num, y: Num)
    requires IsTotalLine(first) && LineAmount(first) == x
    requires IsTotalLine(second) && LineAmount(second) == y
    ensures Accumulate(total, [first, second]) == Add(Add(total, x), y)
  {
    AccumulateTwo(total, first, second);
  }

  lemma SubtotalStrips()
    ensures StripAmount("SUBTOTAL: $10.00") == "10.00"
  {
    assert "SUBTOTAL: $10.00" == "SUBTOTAL: $" + "10.00";
    StripLabel("SUBTOTAL: $", "10.00");
  }

  lemma SubtotalAmount()
    ensures LineAmount("SUBTOTAL: $10.00") == Val(10.0)
  {
    SubtotalStrips();
    ParseTen();
  }

  lemma TotalIsTotalLine()
    ensures IsTotalLine("TOTAL: $12.50")
  {
    assert MatchesAt("TOTAL: $12.50", 0);
  }

  lemma TotalAmount()
    ensures LineAmount("TOTAL: $12.50") == Val(12.5)
  {
    StripDollarAmount();
    ParseTwelveFifty();
  }

  /** A receipt with a subtotal and a total line: `/TOTAL/i` matches both,
      so both amounts are added. */
  lemma SubtotalAndTotalAreBothAdded()
    ensures Accumulate(Val(0.0), ["SUBTOTAL: $10.00", "TOTAL: $12.50"]) == Val(22.5)
  {
    SubtotalIsTotalLine();
    SubtotalAmount();
    TotalIsTotalLine();
    TotalAmount();
    AddTwoTotalLines(Val(0.0), "SUBTOTAL: $10.00", "TOTAL: $12.50", Val(10.0), Val(12.5));
  }

  lemma DollarLine(d: char)
    requires '0' <= d <= '9'
    ensures IsTotalLine("TOTAL $" + [d])
    ensures LineAmount("TOTAL $" + [d]) == Val((d as int - '0' as int) as real)
  {
    assert MatchesAt("TOTAL $" + [d], 0);
    LabelledAmount("TOTAL $", [d]);
    var lit := Decimal(Unsigned, [d], false, "");
    assert lit.Text() == [d];
    assert [d][..0] == [];
    assert DigitsValue([d]) == d as int - '0' as int;
    ParseDecimal(lit);
  }

  /** Two total lines starting from 0 sum to 12. */
  lemma TwoTotalsAdd()
    ensures Accumulate(Val(0.0), ["TOTAL $5", "TOTAL $7"]) == Val(12.0)
  {
    DollarLine('5');
    DollarLine('7');
    assert "TOTAL $5" == "TOTAL $" + ['5'];
    assert "TOTAL $7" == "TOTAL $" + ['7'];
    AddTwoTotalLines(Val(0.0), "TOTAL $5", "TOTAL $7", Val(5.0), Val(7.0));
  }

  /** A total line without digits strips to the empty string and adds 0, so
      the total is unchanged rather than NaN. */
  lemma LettersOnlyAddNothing(total: Num)
    ensures Accumulate(total, ["TOTAL abc"]) == total
  {
    StripLettersOnly();
    AccumulateOne(total, "TOTAL abc");
  }

  /** A malformed amount poisons the total. */
  lemma MalformedAmountPoisons(total: Num)
    ensures Accumulate(total, ["TOTAL: 1.2.3"]) == NaN
  {
    var line := "TOTAL: 1.2.3";
    assert IsTotalLine(line) by {
      assert MatchesAt(line, 0);
    }
    assert LineAmount(line) == NaN by {
      assert line == "TOTAL: " + "1.2.3";
      StripLabel("TOTAL: ", "1.2.3");
      ParseNaNExamples();
    }
    AccumulateOne(total, line);
  }

  /** A minus sign survives the filter, so the total can go negative. */
  lemma NegativeAmount()
    ensures Accumulate(Val(0.0), ["TOTAL -5"]) == Val(-5.0)
  {
    var line := "TOTAL -5";
    assert IsTotalLine(line) by {
      assert MatchesAt(line, 0);
    }
    assert StripAmount(line) == "-5" by {
      assert line == "TOTAL " + "-5";
      StripLabel("TOTAL ", "-5");
    }
    ParseMinusFive();
    AccumulateOne(Val(0.0), line);
  }

  /** The filter removes only white space, ASCII letters and `,$():`, not
      every non-numeric character: a symbol it keeps in front of the amount,
      such as a currency sign other than `$`, makes the amount NaN and so
      poisons the total. */
  lemma KeptSymbolPoisons(total: Num, c: char, amount: string)
    requires !IsStripped(c) && !IsDigit(c) && c != '.' && c != '+' && c != '-'
    requires forall i :: 0 <= i < |amount| ==> !IsStripped(amount[i])
    ensures Accumulate(total, ["TOTAL " + [c] + amount]) == NaN
  {
    var rest := [c] + amount;
    var line := "TOTAL " + rest;
    assert "TOTAL " + [c] + amount == line;
    assert IsTotalLine(line) by {
      assert MatchesAt(line, 0);
    }
    assert forall i :: 0 <= i < |rest| ==> !IsStripped(rest[i]) by {
      forall i | 0 <= i < |rest|
        ensures !IsStripped(rest[i])
      {
        if i > 0 {
          assert rest[i] == amount[i - 1];
        }
      }
    }
    LabelledAmount("TOTAL ", rest);
    assert LeadingDigits(rest) == 0;
    AccumulateOne(total, line);
  }

  /** A euro sign is one such symbol. */
  lemma EuroAmountPoisons(total: Num)
    ensures Accumulate(total, ["TOTAL \U{20AC}5"]) == NaN
  {
    assert "TOTAL \U{20AC}5" == "TOTAL " + ['\U{20AC}'] + "5";
    KeptSymbolPoisons(total, '\U{20AC}', "5");
  }
}
