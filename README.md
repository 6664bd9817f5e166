# OCR expense calculator: the bill total and `dataURItoBlob`

The page captures a frame from the camera, sends it to an OCR engine, and
adds up the amounts on the receipt lines that say "TOTAL". This project
models the two parts of `index.js` that compute something.

**The running bill total.** This covers the global `billTotalPrice`, the
line loop of `extractTextFromImageFile`, and the `reset` and
`updateBillTotalPrice` functions that write the total into the page's
`<span>`.
- A recognized line counts when `/TOTAL/i` matches it.
- Its amount is what is left after the filter `[\sa-zA-Z,$():]` has
  removed characters, read with `Number`.
- The amount is added to the total with `+=`.

**`dataURItoBlob`.** This turns the `data:` URL the canvas produces
(RFC 2397) into the bytes and the media type handed to `new Blob`. It
splits the URL on `,`, then `:`, then `;`, base64-decodes the payload with
`atob`, and copies the decoded characters into a `Uint8Array`.

The files, one module each:
- `js_number.dfy`
  - `JsChars`: the white-space, letter and digit classes of ECMA-262.
  - `JsNumber`: JavaScript numbers, as NaN or an exact real, and
    `Number(string)` (StringToNumber, section 7.1.4.1 of ECMA-262). It is
    proved against a reference grammar of decimal literals.
- `receipt.dfy` (`Receipt`):
  - the line test, with a reference definition of "contains TOTAL in any
    case";
  - the amount filter;
  - the fold of the loop body over the recognized lines, with a reference
    definition as a sum of amounts.
- `bill_total.dfy` (`BillTotal`):
  - the class `Bill`, holding `billTotalPrice` and the displayed value;
  - its methods `UpdateBillTotalPrice`, `Reset` and `AddRecognizedLines`,
    which is the line loop itself.
- `base64.dfy`
  - `Wrappers`: an `Option` type.
  - `Base64`: `atob` as the forgiving-base64 decode of the WHATWG Infra
    standard, and `btoa` (section 4 of RFC 4648) as its inverse.
- `data_uri.dfy` (`DataUri`): `String.prototype.split` for a one-character
  separator, the header and payload selection, `ToUint8` (section 7.1.11
  of ECMA-262), the copy loop and `dataURItoBlob`.

### Consequences of the code as written

- **A subtotal line counts too.** `/TOTAL/i` also matches `SUBTOTAL`, so
  `["SUBTOTAL: $10.00", "TOTAL: $12.50"]` adds both amounts and reaches
  22.5 (`Receipt.SubtotalAndTotalAreBothAdded`).
- **A letters-only total line adds 0.** In `"TOTAL abc"` the filter removes
  every character, and `Number("")` is 0, so the total is unchanged
  (`Receipt.LettersOnlyAddNothing`). A non-empty malformed remainder, such
  as `1.2.3`, gives NaN (`Receipt.MalformedAmountPoisons`).
- **The total can go negative.** A `-` survives the filter, so `TOTAL -5`
  subtracts 5 (`Receipt.NegativeAmount`).
- **Not every non-numeric character is removed.** The comment at
  index.js:69-70 says the function removes non-numeric characters. The
  filter at index.js:86 removes only white space, ASCII letters and
  `,$():`. A currency sign such as `€` or `£`, or any other symbol the
  filter keeps, stays in front of the amount and makes it NaN, which then
  poisons the total (`Receipt.KeptSymbolPoisons`, and
  `Receipt.EuroAmountPoisons` for `"TOTAL €5"`).

## Model

| member | source | states |
|---|---|---|
| JsNumber.Add | index.js:87 | The `+` of `billTotalPrice += …`: NaN exactly when either operand is NaN, otherwise the sum of the two values. |
| JsNumber.ParseNumber | index.js:87 | `Number(amount)` on a filtered amount. Its behaviour is stated by `ParseAccepts` and `ParseDecimal`. |
| JsNumber.ParseAccepts | index.js:87 | `Number(amount)` on a filtered amount is a number exactly when the text is empty or a decimal literal (an optional sign, digits with at most one point, at least one digit). It is NaN exactly otherwise. |
| JsNumber.ParseDecimal | index.js:87 | Every decimal literal reads back as its value: whole digits plus fraction digits, negated under a `-`. |
| JsNumber.ParseTwelveFifty | index.js:87 | `Number("12.50")` is 12.5. |
| JsNumber.ParseTen | index.js:87 | `Number("10.00")` is 10. |
| JsNumber.ParseMinusFive | index.js:87 | `Number("-5")` is -5: a leading minus is read as a sign. |
| JsNumber.ParseNoWhole | index.js:87 | `Number("-.5")` is -0.5: no digit is needed before the point. |
| JsNumber.ParseNoFraction | index.js:87 | `Number("5.")` is 5: no digit is needed after the point. |
| JsNumber.ParseNaNExamples | index.js:87 | A lone point, a lone sign and a second point all give NaN. |
| Receipt.IsTotalLine | index.js:85 | `lineText.text.match(/TOTAL/i)`, as a left-to-right search. `IsTotalLineContains` states what it accepts. |
| Receipt.IsTotalLineContains | index.js:85 | The left-to-right search for `/TOTAL/i` succeeds exactly when some five consecutive characters spell TOTAL in any mix of ASCII case. |
| Receipt.TotalLineIgnoresCase | index.js:85 | Two lines that differ only in the case of ASCII letters are both matched or both not. |
| Receipt.TotalLineExamples | index.js:85 | "total", "Total" and "ToTaL" all match. |
| Receipt.SubtotalIsTotalLine | index.js:85 | "SUBTOTAL: $10.00" matches, because the word occurs inside it. |
| Receipt.BrokenWordIsNotTotalLine | index.js:85 | "TOTA L" does not match: the five letters must be consecutive. |
| Receipt.StripAmount | index.js:86 | The filtered amount is no longer than the line and holds no character of the class. |
| Receipt.StripCounts | index.js:86 | Each character outside the class is kept as often as it occurs in the line, and each character in the class is removed every time. |
| Receipt.StripConcat | index.js:86 | The global replace works character by character: filtering a concatenation concatenates the filtered parts. |
| Receipt.StripKeeps | index.js:86 | Text with no character of the class is left unchanged, so filtering twice is filtering once. |
| Receipt.StripAllRemoved | index.js:86 | A line made only of class characters filters to the empty string. |
| Receipt.StripLabel | index.js:86 | A label of class characters in front of an amount is removed whole and the amount is kept. |
| Receipt.StripDollarAmount | index.js:86 | "TOTAL: $12.50" filters to "12.50". |
| Receipt.LabelledAmount | index.js:86-87 | A line made of a label of class characters followed by an amount has that amount read by `Number`. |
| Receipt.EmptyAmountAddsNothing | index.js:86-87 | A line that filters to nothing leaves the total as it was. |
| Receipt.LineAmount | index.js:86-87 | `Number` of the filtered line. `LabelledAmount` and the filter lemmas state its value. |
| Receipt.Step | index.js:85-87 | One pass of the loop body: a matching line adds its amount, any other line leaves the total. `EmptyAmountAddsNothing` and `AccumulateIsSum` state its effect. |
| Receipt.Accumulate | index.js:84-88 | The loop over the recognized lines in order. `AccumulateIsSum`, `AccumulateIsNaN` and `AccumulateConcat` state its result. |
| Receipt.AccumulateIsSum | index.js:84-88 | After the loop the total is the prior total plus the left-to-right sum of the amounts of all matching lines, in line order. |
| Receipt.AccumulateConcat | index.js:84-88 | Running the loop over two batches in turn gives the same total as running it once over their concatenation. |
| Receipt.NoTotalLineNoChange | index.js:84-88 | Lines none of which matches leave the total unchanged. |
| Receipt.SumIsNaN | index.js:87 | A sum of numbers is NaN exactly when one of them is NaN. |
| Receipt.NaNStays | index.js:84-88 | Once the total is NaN, no further line changes it. |
| Receipt.AccumulateIsNaN | index.js:84-88 | The loop ends with NaN exactly when the total started as NaN or some matching line's amount is NaN. |
| Receipt.PoisonedAfter | index.js:84-89 | After a matching line whose amount is NaN, every later running total is NaN. |
| Receipt.AddTwoTotalLines | index.js:84-88 | Two matching lines in a row add their amounts in turn. |
| Receipt.SubtotalAndTotalAreBothAdded | index.js:84-89 | From 0, the lines "SUBTOTAL: $10.00" and "TOTAL: $12.50" give 22.5. |
| Receipt.TwoTotalsAdd | index.js:84-89 | From 0, the lines "TOTAL $5" and "TOTAL $7" give 12. |
| Receipt.DollarLine | index.js:85-87 | "TOTAL $d" matches and its amount is the value of the digit d. |
| Receipt.LettersOnlyAddNothing | index.js:84-89 | "TOTAL abc" leaves any total unchanged. |
| Receipt.MalformedAmountPoisons | index.js:84-89 | "TOTAL: 1.2.3" turns any total into NaN. |
| Receipt.NegativeAmount | index.js:84-89 | From 0, "TOTAL -5" gives -5. |
| Receipt.KeptSymbolPoisons | index.js:84-89 | A total line whose amount follows a symbol the filter keeps (not a digit, point or sign) turns any total into NaN. |
| Receipt.EuroAmountPoisons | index.js:84-89 | "TOTAL €5" turns any total into NaN. |
| BillTotal.RunningTotals | index.js:89 | The values written to the display by the loop, one per line. `RunningTotalsAt` states each of them. |
| BillTotal.RunningTotalsAt | index.js:84-90 | The k-th value written to the display during the loop is the total over the first k + 1 lines. |
| BillTotal.Bill.constructor | index.js:139 | At page load the total (declared at line 2) is 0 and 0 is written to the display once, so the display shows the total. |
| BillTotal.Bill.UpdateBillTotalPrice | index.js:134-136 | The display shows the current total, and that value is appended to the record of values written. |
| BillTotal.Bill.Reset | index.js:126-129 | Whatever the total was, NaN included, it becomes 0 and the display shows 0. |
| BillTotal.Bill.AddRecognizedLines | index.js:84-90 | The new total is the loop fold over the lines from the old total. The display is refreshed after every line, matched or not, with the running totals in order. After a non-empty batch it shows the new total, and a display that showed the total still does after any batch. |
| BillTotal.CaptureTwiceThenReset | index.js:126-129 | Two captures in a row total what one capture of both batches would, and a reset afterwards shows 0. |
| Base64.Atob | index.js:108 | `atob`: the forgiving-base64 decode, `None` where it throws. Its result is always a byte string; `AtobBtoa` and the rejection lemmas state what it accepts. |
| Base64.AtobBtoa | index.js:108 | `atob` inverts `btoa`: every byte string comes back unchanged. |
| Base64.DecodeEncode | index.js:108 | Decoding the 6-bit values of an encoding gives the bytes back. This covers full groups of three bytes and final groups of one or two. |
| Base64.SextetsSpell | index.js:108 | Reading the alphabet characters that spell 6-bit values gives those values back. |
| Base64.AtobRejectsStray | index.js:108 | Input holding a character that is not white space, not in the alphabet and not `=` is rejected (the call throws). |
| Base64.AtobRejectsLength | index.js:108 | Input of 1 mod 4 characters, none of them white space or `=`, is rejected. |
| Base64.AtobIgnoresWhitespace | index.js:108 | Inserting ASCII white space anywhere does not change the result. |
| Base64.AtobExample | index.js:108 | "QUJD" decodes to "ABC", as in RFC 4648. |
| DataUri.Split | index.js:108 | `split` gives at least one piece. It gives exactly one when the separator does not occur, and no piece contains the separator. |
| DataUri.JoinSplit | index.js:108 | Joining the pieces with the separator gives the string back. |
| DataUri.SplitAtFirst | index.js:111 | Everything before the first separator is the first piece, and the rest splits on its own. |
| DataUri.Header | index.js:111 | `dataURI.split(",")[0]`. `MediaTypeBetween` states what the media type taken from it is. |
| DataUri.Payload | index.js:108 | `dataURI.split(",")[1]` as `atob` receives it: the second piece, or "undefined" without a comma. `PayloadOfDataUrl` and `NoCommaRejected` state it. |
| DataUri.NoCommaRejected | index.js:108 | Without a comma, `split(",")[1]` is undefined, `atob` receives "undefined", and it rejects it. |
| DataUri.MediaType | index.js:111 | The media type contains no `,`, `:` or `;`. |
| DataUri.MediaTypeBetween | index.js:111 | The media type is exactly the text after the first colon, up to the next `;`, `:` or `,`. |
| DataUri.PngMediaType | index.js:111 | The header of a PNG capture gives the type `image/png`. |
| DataUri.PayloadOfDataUrl | index.js:108 | For a URL built as `data:<type>;base64,<btoa(bytes)>`, the payload handed to `atob` is the encoding. |
| DataUri.MediaTypeOfDataUrl | index.js:111 | For such a URL the media type is the one it was built with. |
| DataUri.DataUrlRoundTrip | index.js:102-121 | Such a URL is accepted, and yields the media type and the bytes it was built from. |
| DataUri.ToUint8 | index.js:117 | Storing a number in a `Uint8Array` keeps it when it is a byte value. |
| DataUri.CopyBytes | index.js:114-118 | A fresh array as long as the byte string, whose element i is the character code of character i. |
| DataUri.DataUriToBlob | index.js:102-121 | The result is `undefined` exactly for an absent or empty input. The call throws exactly when `atob` rejects the payload or the header has no colon. Otherwise it gives a fresh byte array holding the decoded payload, and the media type of the header. |

## Left out

- Camera start-up, `window.onload`, frame capture, and the drawing of the frame on a canvas (index.js:17-66) are browser I/O and are not part of this model. `DataUri.DataUrl` stands for what `toDataURL` returns.
- The OCR engine (index.js:79-80, 92) is a foreign call. Its recognized lines are the input sequence of `AddRecognizedLines`.
- The `console.log` at index.js:82 is output only.
- `async` interleaving is not modelled. The line loop contains no `await`, so it runs without interruption. Two captures that overlap around the OCR call are not modelled.
- JsNumber.Add and the whole model use exact real arithmetic. IEEE-754 rounding (`0.1 + 0.2`), `-0`, and overflow to `Infinity` are not modelled.
- JsNumber.ParseNumber accepts only strings with no letter and no white space. This loses nothing here, because the filter removes both before `Number` is called, so `Infinity`, exponents, `0x` prefixes and trimming cannot arise.
- BillTotal.Bill.UpdateBillTotalPrice records the number written to `textContent`. The conversion of that number to text is left out, and so is the DOM lookup of the `<span>`.
- DataUri.DataUriToBlob returns the array and the type passed to `new Blob`. The Blob object itself is left out, including the lowercasing and validation of its `type`.
- DataUri.DataUriToBlob takes an optional string. Non-string arguments are left out. The only conversion of an argument to text that is modelled is `atob(undefined)`.
- DataUri.DataUriToBlob reports every exception as `Threw`. A rejected payload raises InvalidCharacterError from `atob` at index.js:108. A header with no colon raises TypeError from `undefined.split` at index.js:111. No caller catches either, so the kind is not modelled.
- DataUri.Split models `split` with a one-character separator only, which is all the source uses.
- Characters are Unicode scalar values, not UTF-16 code units. `charCodeAt` is only applied to `atob` output, which is below 256, so this makes no difference there.
