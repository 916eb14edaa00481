# Intesa Sanpaolo document generator — verified model

This project models the core of `pdf_costructor.py`, a generator for four
bank documents:

- the loan contract (`contratto`), with its amortization table
- the guarantee letter (`garanzia`)
- the card letter (`carta`)
- the loan approval letter (`approvazione`)

The generator works in four steps:

1. It computes the monthly instalment and the repayment schedule of a loan.
2. It renders the schedule as an HTML table.
3. It fills the document's HTML template by replacing placeholders, each at
   its first occurrence and in a fixed order.
4. It stamps images (company stamp, seal, signature, logo) on the rendered
   pages at positions computed from a 25 × 35 grid of page cells.

The model is organised by component:

- `Money`: `format_money` and the `:.2f` / `:.10f` fixed-point formats.
- `Amortization`:
  - `monthly_payment`, with the annuity formula proved against a reference
    recurrence of the outstanding balance.
  - `calculate_amortization_schedule`, as a loop method proved against the
    specification function `Rows`.
- `AmortizationTable`: `generate_amortization_html`, the row-accumulation
  loop and the table around it.
- `Substitution`:
  - the `replace(old, new, 1)` loop;
  - the theorem that ordered first-occurrence replacement fills a template's
    slots in order;
  - its generalisation to slots in any order, where the c-th slot of a
    token receives the value of the c-th pair for that token.
- `Documents`: the request dictionary, the per-document replacement lists,
  and the `KeyError` raised by the first missing key.
- `Generator`: the `generate_*_pdf` entry points, up to the HTML handed to
  the renderer.
- `Overlay`: the grid arithmetic, the image placements of each document, the
  page merge loop and the fall-back to the unstamped PDF.

Values are exact reals. The only rounding is the rounding the code applies
(`round(x, 2)` and the format precisions), modelled as round-half-up. Python
exceptions the model keeps are `Err` values:

- `ZeroDivisionError` becomes `DivisionByZero`.
- `KeyError` becomes `MissingField(key)`.

The current date, the template text and the pixel sizes of the image files
are parameters.

## Model

| member | source | states |
|---|---|---|
| Money.RoundScaled | pdf_costructor.py:29-32 | Defines rounding half-up to a number of decimal places, as an integer count of units of the last place. |
| Money.Round2 | pdf_costructor.py:29-32 | Defines `round(x, 2)`. |
| Money.MoneyText | pdf_costructor.py:17 | Defines the text of `f"{c:,.2f}".replace(',', ' ')` for an amount of c cents: sign, grouped integer part, point, two decimals. |
| Money.FormatMoney | pdf_costructor.py:15-17 | Defines `format_money(x)`: x rounded to cents, then written by `MoneyText`. |
| Money.FixedText | pdf_costructor.py:155-161 | Defines the text of a fixed-point format for a value already scaled and rounded: sign, integer digits, point, zero-padded decimals. |
| Money.Fixed | pdf_costructor.py:155-161 | Defines `f"{x:.{places}f}"`: x rounded to that many places, then written by `FixedText`. |
| Money.IntText | pdf_costructor.py:157 | Defines `str(n)` for an integer. |
| Money.Round2Close | pdf_costructor.py:29-32 | The two-decimal rounding of the payment moves a value by at most half a cent. |
| Money.MoneyTextShape | pdf_costructor.py:15-17 | `format_money` text has an optional minus sign exactly for negative amounts. The integer part is in well-formed groups of three separated by single spaces. Then come a point and exactly two decimals, and the text never contains a comma. |
| Money.MoneyTextRoundTrip | pdf_costructor.py:15-17 | `format_money` loses no information: reading the digits and the sign back gives the amount in cents it was made from. |
| Money.FormatMoneyReadsBack | pdf_costructor.py:15-17 | Reading back `format_money(x)` gives x rounded to the cent, within 0.005 of x. |
| Money.GroupWellGrouped | pdf_costructor.py:17 | Thousands grouping of any digit string is well formed: a leading group of 1–3 digits, then space-separated groups of three. |
| Money.GroupDigitsOnly | pdf_costructor.py:17 | Replacing the grouping commas by spaces keeps every digit, in order. |
| Money.MoneyTextNumeral | pdf_costructor.py:15-17 | `format_money` writes only digits and the three characters space, point and minus sign. |
| Money.FixedTextNumeral | pdf_costructor.py:155-156 | The `:.2f` / `:.10f` formats write only digits and the two characters point and minus sign, never a space. |
| Money.FixedReadsBack | pdf_costructor.py:155-161 | Reading back `f"{x:.{places}f}"` gives x scaled by 10^places and rounded, within half a unit of the last place. |
| Money.RoundScaledClose | pdf_costructor.py:155-161 | Rounding to a number of places moves the scaled value by at most half a unit. |
| Money.DropPadValue | pdf_costructor.py:155-161 | The integer digits and the zero-padded fraction digits of the format together spell the scaled value. |
| Money.IntTextNumeral | pdf_costructor.py:157 | `str(duration)` writes only digits and the minus sign, never a space or a point. |
| Money.NatDigitsValue | pdf_costructor.py:157 | The decimal digits of a natural number read back as that number. |
| Amortization.MonthlyRate | pdf_costructor.py:27 | Defines the monthly rate `(annual_rate / 100) / 12`. |
| Amortization.IntPower | pdf_costructor.py:30-31 | Defines `(1 + r) ** months`, with the division by zero of a zero base raised to a negative power. |
| Amortization.Annuity | pdf_costructor.py:30-32 | Defines the unrounded annuity `num / den`. |
| Amortization.MonthlyPayment | pdf_costructor.py:25-32 | Zero months raises `ZeroDivisionError`. Positive months at a non-negative rate always give a payment. A zero monthly rate gives the amount divided by the months, rounded to cents. |
| Amortization.RemainingBalanceClosedForm | pdf_costructor.py:30-31 | Closed form of the balance left after n payments at monthly rate r, the identity the annuity formula rests on. |
| Amortization.AnnuityRetiresLoan | pdf_costructor.py:30-32 | The unrounded annuity payment `amount*r*g/(g-1)` leaves nothing to repay after `months` payments. |
| Amortization.PaymentRoundsAnnuity | pdf_costructor.py:25-32 | With a positive number of months and a non-zero rate, `monthly_payment` succeeds and returns the annuity `amount*r*g/(g-1)` to within half a cent. |
| Amortization.FlatPaymentRetiresLoan | pdf_costructor.py:28-29 | At a zero rate the even split leaves nothing to repay after `months` payments. |
| Amortization.Clamp | pdf_costructor.py:52 | Defines `if balance < 0.01: balance = 0`. |
| Amortization.Step | pdf_costructor.py:43-60 | Defines one loop iteration: interest on the balance, principal as payment minus interest, the last month repaying the whole balance, and the clamped new balance. |
| Amortization.Rows | pdf_costructor.py:42-60 | Defines the entries the loop appends from month i to the last month. |
| Amortization.Schedule | pdf_costructor.py:35-61 | Defines the result of `calculate_amortization_schedule`: the payment's error, or the rows from month 1 with the computed payment. |
| Amortization.CalculateAmortizationSchedule | pdf_costructor.py:35-61 | The method returns the payment's error, or the schedule `Rows(1, months, amount, payment, monthlyRate)` built by the loop. |
| Amortization.ScheduleLoop | pdf_costructor.py:37-61 | The `for i in range(1, months + 1)` loop appends exactly the entries of `Rows` from month 1. |
| Amortization.RowsLength | pdf_costructor.py:42 | The loop produces `months - i + 1` entries from month i, and none when i > months. |
| Amortization.RowsAt | pdf_costructor.py:42-60 | Entry k is one loop step from the balance recorded by entry k-1, or from the starting balance for the first entry. |
| Amortization.ScheduleShape | pdf_costructor.py:42-60 | There is one entry per month, numbered 1..months in order (none for months ≤ 0). Every recorded balance is 0 or at least 0.01, never negative. |
| Amortization.ScheduleEntryAt | pdf_costructor.py:42-60 | Entry k is the loop step for month k+1 from the previous recorded balance, with the computed payment and the monthly rate. |
| Amortization.LastEntryClosesLoan | pdf_costructor.py:46-52 | The last month repays exactly the remaining balance. Its payment is that principal plus the month's interest, and the balance closes at 0. |
| Amortization.EarlierEntriesPayInstalment | pdf_costructor.py:43-52 | Every month but the last pays the monthly payment. Its interest is the previous balance times the monthly rate, its principal is the rest, and the new balance is the clamped difference. |
| Amortization.ZeroRateSchedule | pdf_costructor.py:27-29 | At a zero rate no month charges interest. Every month but the last pays the amount divided by the months, rounded to cents. |
| Amortization.PrincipalsRepayBalance | pdf_costructor.py:44-51 | If the balance is not cleared early, the principal portions add up to the starting balance. |
| Amortization.PrincipalsRepayAmount | pdf_costructor.py:35-61 | If the balance is not cleared before the last month, the principals of the schedule add up exactly to the amount borrowed. |
| Amortization.ClearedEarlyOverpays | pdf_costructor.py:35-61 | Lending 0.05 over ten months at no interest, the schedule's principals add up to 0.09: once the rounded-up instalment has cleared the balance, later months still record a principal. |
| Amortization.RowsFollowRecurrence | pdf_costructor.py:43-51 | Until the balance is first cleared, the recorded balances are those of the reference recurrence driven by the rounded payment. |
| AmortizationTable.Cell | pdf_costructor.py:70-74 | Defines the markup of one body cell around its text. |
| AmortizationTable.EuroText | pdf_costructor.py:71-74 | Defines `f"{format_money(x)} €"`. |
| AmortizationTable.RowHtml | pdf_costructor.py:68-76 | Defines the row fragment of one entry: month, payment, interest, principal and balance cells. |
| AmortizationTable.HeaderCell | pdf_costructor.py:81-85 | Defines the markup of one header cell around its title. |
| AmortizationTable.TableHtml | pdf_costructor.py:78-89 | Defines the table element: the header row with the five titles, then the rows. |
| AmortizationTable.Table | pdf_costructor.py:64-90 | Defines `generate_amortization_html(schedule)`: the table around the rows of all entries. |
| AmortizationTable.Fragments | pdf_costructor.py:67-76 | Defines the fragment of each schedule entry, in schedule order; `RowAt` and `AccumulateRows` state what the table makes of them. |
| AmortizationTable.GenerateAmortizationHtml | pdf_costructor.py:64-90 | The method returns the header row with the five column titles, followed by the row fragments of all entries joined in order, inside the table element. |
| AmortizationTable.AccumulateRows | pdf_costructor.py:66-76 | The `rows +=` loop builds the concatenation of the entries' fragments in order. |
| AmortizationTable.ConcatAppend | pdf_costructor.py:66-76 | Joining the fragments distributes over splitting the schedule. |
| AmortizationTable.RowAt | pdf_costructor.py:66-76 | Entry k's row sits between the rows of the entries before it and those after it: nothing is dropped or reordered. |
| Substitution.FindFrom | pdf_costructor.py:186 | `find` returns the leftmost occurrence at or after i, or reports that there is none. |
| Substitution.ReplaceFirst | pdf_costructor.py:186 | `replace(old, new, 1)` leaves text without `old` unchanged. Otherwise it replaces exactly the leftmost occurrence and keeps everything around it, and the length changes by `len(new) - len(old)`. |
| Substitution.ReplaceAtFirst | pdf_costructor.py:186 | The leftmost occurrence determines the result of `replace(old, new, 1)`. |
| Substitution.ApplyAll | pdf_costructor.py:185-186 | Defines the result of the loop: `replace(old, new, 1)` for each pair in list order. |
| Substitution.ApplyReplacements | pdf_costructor.py:185-186 | The loop applies every pair once, in list order. |
| Substitution.Zip | pdf_costructor.py:151-183 | A replacement list built from its `old` and `new` columns has those columns. |
| Substitution.FillInOrder | pdf_costructor.py:185-186 | In a template whose slots hold the list's `old` tokens in order, the k-th slot receives the k-th `new` value. This holds when no value followed by its fixed text, and not the leading text, can be taken for the start of a token. The text after the last slot is unconstrained and comes out unchanged. |
| Substitution.FillTail | pdf_costructor.py:185-186 | Text appended after a template belongs to its last segment. |
| Substitution.SurplusKept | pdf_costructor.py:185-186 | Whatever follows the slots, surplus placeholders included, is left in the text while the slots are filled in order. |
| Substitution.FillAnyOrder | pdf_costructor.py:185-186 | In a template whose slots hold the list's `old` tokens in any order, each as often as the list has it, the c-th slot of a token receives the `new` value of the c-th pair for that token. This holds when no value followed by its fixed text, and not the leading text, can be taken for the start of a token, and no slot's text can start a different token. Nothing is asked of the text after the last slot. |
| Substitution.Nth | pdf_costructor.py:185-186 | The c-th occurrence of a token in a list is at an index holding that token, with exactly c occurrences before it. |
| Substitution.NthRank | pdf_costructor.py:185-186 | Counting the occurrences of a token before an entry finds that entry back. |
| Substitution.RankIncreases | pdf_costructor.py:185-186 | A later occurrence of a token has more occurrences before it. |
| Substitution.OnlyAt | pdf_costructor.py:151-165 | A token that no other entry of the list equals occurs exactly once. |
| Substitution.PrefixCount | pdf_costructor.py:185-186 | Extending a list by one entry adds one occurrence of that entry and none of any other token. |
| Substitution.FillPrefix | pdf_costructor.py:185-186 | A template with a fixed prefix fills like the template without it, behind the same prefix. |
| Substitution.FirstAtSlot | pdf_costructor.py:186 | A token placed right after text in which no token can start is the leftmost occurrence. |
| Substitution.InertConcat | pdf_costructor.py:186 | Text in which no token can start stays so when joined with other such text. |
| Documents.RequiredKeys | pdf_costructor.py:147-183 | Defines the keys each document's list reads, in Python's evaluation order. |
| Documents.Tokens | pdf_costructor.py:151-183 | Defines each document's `old` column: thirteen tokens for the contract, and only `XXX` for the letters. |
| Documents.PercentText | pdf_costructor.py:155-156 | Defines `f"{x:.2f}%"`. |
| Documents.TotalPayments | pdf_costructor.py:148 | Defines `data['payment'] * data['duration']`. |
| Documents.Need | pdf_costructor.py:147-183 | Defines `data[key]`: the value, or the `KeyError` naming the key; `Replacements` and `Generator.WithPayment` state which key a list reports. |
| Documents.FirstMissing | pdf_costructor.py:151-183 | Finds the first key of the list, in evaluation order, that the request lacks, or reports that all are present. |
| Documents.Replacements | pdf_costructor.py:143-183 | The list is built exactly when every key the document's list reads is present. Otherwise the `KeyError` names the first missing key in Python's evaluation order. On success the `old` column is the document's tokens and the `new` column is its values. |
| Documents.Values | pdf_costructor.py:147-183 | There is one value per token of the document's list. |
| Documents.ContractValues | pdf_costructor.py:147-165 | The contract's list has thirteen values. |
| Documents.XxxRank | pdf_costructor.py:151-165 | In the contract's layout (`XXX` exactly at positions 1–6 and 8 of thirteen) the c-th `XXX` is at position c+1 for c < 6 and at position 8 for c = 6. |
| Documents.XxxTotal | pdf_costructor.py:151-165 | That layout holds `XXX` seven times. |
| Documents.ContractTokens | pdf_costructor.py:151-165 | The contract's list has that layout, and each of its tokens other than `XXX` occurs once. |
| Documents.ContractPairs | pdf_costructor.py:151-165 | The same for a replacement list whose `old` column is the contract's tokens. |
| Documents.ContractRanks | pdf_costructor.py:151-186 | In a template holding the contract's tokens in any order, the c-th `XXX` slot receives the value of the c-th `XXX` pair, and the slot of any other token that token's value. |
| Documents.ContractNameTwice | pdf_costructor.py:153-160 | The first and the seventh `XXX` of the contract both receive the customer's name. |
| Documents.PlainInert | pdf_costructor.py:185-186 | Text without `XXX` that does not end in `X` is exactly the text in which no `XXX` can start. |
| Documents.NoXInert | pdf_costructor.py:185-186 | Text without any `X` cannot take part in an `XXX` placeholder. |
| Documents.FormattedInert | pdf_costructor.py:154-172 | Formatted amounts, percentages and `N mesi` texts can never be taken for an `XXX` placeholder. |
| Generator.WithPayment | pdf_costructor.py:97-99 | A payment the caller gives is kept. Otherwise a missing amount, duration or rate raises `KeyError` naming the first one in that order. With all three present, the `ZeroDivisionError` of `monthly_payment` passes through, and a payment it returns is stored. |
| Generator.Prepared | pdf_costructor.py:93-134 | Defines the request each entry point hands on: the payment defaulted for the contract and the card letter, and the table built for the contract. |
| Generator.Assembled | pdf_costructor.py:137-186 | Defines the HTML handed to the renderer: the prepared request's replacement list applied to the template, or the first exception. |
| Generator.PrepareRequest | pdf_costructor.py:93-134 | Each entry point prepares the request step by step. The contract and the card letter default the payment, and the contract also builds the amortization table. |
| Generator.AssembleHtml | pdf_costructor.py:137-186 | The HTML handed to the renderer is the template with the document's replacement list applied in order. Otherwise the result is the first exception raised on the way. |
| Generator.PaymentDefault | pdf_costructor.py:97-99 | For the contract and the card letter, a given payment is kept, and a missing one is the annuity instalment of the request. |
| Generator.ContractTable | pdf_costructor.py:101-103 | The contract's table is always rebuilt from amount, duration and rate, whatever `amortization_table` held before. |
| Generator.AssembledSucceeds | pdf_costructor.py:93-186 | With every key the list reads present, except a payment that the entry point computes, no exception is raised. It assumes a positive duration and a non-negative rate wherever a payment or schedule is computed. |
| Generator.GuaranteeAssembled | pdf_costructor.py:109-114 | `generate_garanzia_pdf(name)` never misses a key, and the template's first `XXX` becomes the name. |
| Generator.TemplateFilledInOrder | pdf_costructor.py:143-186 | In a template laid out as the document's tokens in order, the k-th placeholder receives the k-th value, unless a value or the fixed text before the last slot could be taken for a token. |
| Generator.TemplateFilledAnyOrder | pdf_costructor.py:137-186 | In a template holding the document's tokens in any order, each slot receives the value `Filled` assigns it. This holds when no value or fixed text before the last slot could be taken for a token. |
| Generator.ContractFilledInOrder | pdf_costructor.py:143-186 | In a contract template holding its tokens in any order, the c-th `XXX` receives the c-th `XXX` value and every other token its own value. The name is the first and the seventh `XXX` value. This holds when no value or fixed text before the last slot could be taken for a token. |
| Generator.LetterPrepared | pdf_costructor.py:109-134 | A letter's entry point succeeds when every key but the payment is present. It changes at most the payment and leaves every key of the list present. |
| Generator.LetterFilledInOrder | pdf_costructor.py:109-186 | Suppose a letter's fixed text before its last placeholder and the customer's name contain no `XXX` and do not end in `X`. Then the entry point succeeds, even without a payment for the card letter, and its k-th `XXX` receives the k-th value of the prepared request. |
| Generator.LetterSurplusKept | pdf_costructor.py:166-186 | A letter template with more `XXX` than values gets its values in the first ones, and everything after them, surplus `XXX` included, is left in the text. |
| Generator.LetterValueInert | pdf_costructor.py:166-183 | Each value of a letter's list, other than the name, can never be taken for an `XXX`. |
| Overlay.CellRow | pdf_costructor.py:225 | Defines `(cell - 1) // 25`. |
| Overlay.CellCol | pdf_costructor.py:226 | Defines `(cell - 1) % 25`. |
| Overlay.CentreX | pdf_costructor.py:248 | Defines the horizontal centre of a cell in millimetres. |
| Overlay.CentreY | pdf_costructor.py:249 | Defines the vertical centre of a cell in millimetres, from the bottom of the page. |
| Overlay.CellNumbering | pdf_costructor.py:225-226 | Any cell from 1 maps to a row from 0 and a column in 0..24 that give back the cell; cells 1..875 have rows in 0..34. |
| Overlay.CellPosition | pdf_costructor.py:245-246 | Every grid position has a cell number in 1..875 whose row and column are that position. |
| Overlay.CentreOnPage | pdf_costructor.py:248-249 | The centre of any cell from 1 lies strictly between the page's side edges and below its top edge; for cells 1..875 it also lies above the bottom edge. |
| Overlay.Centred | pdf_costructor.py:242-256 | An image drawn centred on a point has its centre at that point in points. Its width and height are its natural size in millimetres divided by the scale divisor. |
| Overlay.SealPlacement | pdf_costructor.py:238-256 | Defines the seal's drawing: a fifth of its size, centred on cell 590. |
| Overlay.SignaturePlacement | pdf_costructor.py:258-276 | Defines the signature's drawing: a fifth of its size, centred on cell 593. |
| Overlay.GuaranteeCompanyPlacement | pdf_costructor.py:218-236 | Defines the guarantee letter's company stamp: `1/1.33` of its size, centred on a point offset from cell 27. |
| Overlay.CompanyPlacement | pdf_costructor.py:283-298 | Defines the company stamp of the card, approval and contract documents: 1.44/2 of its size, its corner placed from cell 52. |
| Overlay.LogoPlacement | pdf_costructor.py:363-378 | Defines the contract's logo: a ninth of its size, its corner placed from cell 71. |
| Overlay.CornerPlacements | pdf_costructor.py:343-378 | The stamp's bottom-left corner is a twelfth of a cell right of the centre of cell 52. The logo's is the centre of cell 71. Both stand on the same line, a quarter cell below the fourth grid row. |
| Overlay.AspectKept | pdf_costructor.py:216-378 | Seal, signature, both company stamps and the logo are each drawn in their image's own proportions, so `preserveAspectRatio=True` changes no drawing. |
| Overlay.SealAndSignature | pdf_costructor.py:238-276 | Seal (cell 590) and signature (cell 593) lie in grid row 23, columns 14 and 17. The signature's centre is three cells right of the seal's, at the same height. |
| Overlay.OverlayPages | pdf_costructor.py:216-390 | Defines the overlay's pages per document, or none when an image cannot be opened. |
| Overlay.LetterPages | pdf_costructor.py:281-340 | Defines the one overlay page of the card and approval letters. |
| Overlay.AddImages | pdf_costructor.py:199-419 | Defines `_add_images_to_pdf`: the merged pages, or the rendered pages when the overlay cannot be built. |
| Overlay.Merged | pdf_costructor.py:403-406 | Merging keeps the page count. |
| Overlay.MergePages | pdf_costructor.py:395-406 | The merge loop writes page i with overlay page i merged onto it when there is one, and page i unchanged otherwise. |
| Overlay.MergedPages | pdf_costructor.py:403-406 | Page i of the output is stamped exactly when i is below the overlay's page count, and is the base page otherwise. |
| Overlay.PageCountKept | pdf_costructor.py:395-419 | The document keeps its page count whether or not the images can be added. |
| Overlay.StampedPages | pdf_costructor.py:216-406 | Every page after the first of a letter, and after the first two of the contract, is written unchanged. What the first pages carry is stated by `LetterStamped` and `ContractLogos`. |
| Overlay.ContractLogos | pdf_costructor.py:343-386 | The contract's first page carries the company stamp and the logo. Its second page, when there is one, carries the same logo at the same place. |
| Overlay.LetterStamped | pdf_costructor.py:216-340 | A letter's first page carries the company stamp, the seal and the signature. The guarantee letter uses its own stamp placement, the other letters the cell-52 placement. |
| Overlay.OverlayPageCount | pdf_costructor.py:216-390 | The overlay exists exactly when the images the document draws can be opened. It has one page for a letter and two for the contract. |
| Overlay.MissingImageFallsBack | pdf_costructor.py:415-419 | When an image the document draws cannot be opened, the rendered pages are returned unchanged. |

## Left out

- Rendering HTML to PDF (WeasyPrint), drawing on a canvas (ReportLab), reading and writing PDFs (PyPDF2) and opening images (PIL) are not modelled. A page is an abstract value recording which images were merged onto it, and an image file is known only by its pixel size, or `None` when it cannot be opened.
- `fix_html_layout` (the template clean-up before substitution) is not part of this model: the template text is a parameter.
- `format_date` reads the clock: the date text is a parameter.
- `print` calls, the exception messages they print, and `main` are not modelled.
- Money.FormatMoney: IEEE-754 doubles and Python's correctly rounded formatting are not modelled. Amounts are exact reals rounded half-up, so a value that a double holds just below a half-cent may round differently. A negative amount that rounds to zero prints as `0.00` here, not `-0.00`.
- Money.Fixed: the same holds for the `:.2f` / `:.10f` formats. A negative value that rounds to zero gives `0.00` or `0.0000000000` here, where Python writes `-0.00` or `-0.0000000000`, and `PercentText` inherits this.
- Amortization.MonthlyPayment: `round(x, 2)` is modelled as round-half-up on exact reals, not Python's round-half-even on the binary value. `(1 + r) ** months` is exact.
- Overlay.Centred: placements are exact reals, not floating-point coordinates.
- Overlay.MissingImageFallsBack: only a failure to open an image file is modelled as a cause of the fall-back. Any other exception inside the overlay code (a corrupt PDF, a failing merge) is not modelled.
- Generator.PrepareRequest: the Python entry points mutate the caller's dictionary in place (`payment` and `amortization_table`). The model returns the updated request as a new value, so aliasing of the caller's dictionary is not captured.
- A reader might expect three checks that the code does not make. The model follows the code in each case:
  - an error for a template placeholder left unreplaced: the code leaves it in the text;
  - an error for a grid cell off the page: the code makes no such check;
  - cutting the carta and approvazione letters to one page: the code keeps every page.
- Amortization.PrincipalsRepayAmount: the principals add up to the amount only when the balance is not cleared before the last month. Once a rounded-up instalment has cleared it, the loop keeps recording principals; `Amortization.ClearedEarlyOverpays` shows a sum of 0.09 for a loan of 0.05.
- Generator.ContractFilledInOrder: the conditions that no value or fixed text can be taken for a token are hypotheses, not derived. The table, the date and the template are parameters and can hold any text.
- The `except Exception: raise` wrapper of `_generate_pdf_with_images` only re-raises, so the model propagates the error value unchanged.
