# MEFF option snapshot: instrument codes, time to expiry and implied-volatility shell

A Dafny model of the logic in `lambda/scraping_and_iv.py`, the Lambda job that scrapes the
MEFF Mini-IBEX option table, decodes each row's instrument code (`data-tipo`), computes
the time to expiry `T`, solves for the implied volatility (IV) and emits one record per
option row with an `id` key.

Modules, one per component:

- `Wrappers` (`wrappers.dfy`): `Option` and `Result`.
- `Calendar` (`calendar.dfy`): proleptic Gregorian dates and their day ordinal (1 January 0001 is
  day 1). Also the fixed-width `DD-MM-YYYY` text form, read by `ReadDate` (the
  `pd.to_datetime(..., format="%d-%m-%Y")` call) and written by `FormatDate` (`time.strftime`).
- `InstrumentCode` (`instrument_code.dfy`): `parse_tipo`.
- `TimeToExpiry` (`time_to_expiry.dfy`): `calculate_T`, as whole days over 365, on dates
  (`YearFraction`) and on texts (`CalculateT`).
- `LocaleNumber` (`locale_number.dfy`): `s.replace(".", "").replace(",", ".")`.
- `Pricing` (`pricing.dfy`): the guards and the exception flow of `black_scholes_price`,
  `brentq` and `implied_volatility`. IV is `Defined(sigma) | Undefined`, with `Undefined` in place of NaN.
- `MeffScrape` (`meff_scrape.dfy`): the `for row in rows` loop of `scrape_meff_data`
  (`ScrapeRows`, a method with a loop invariant, proved equal to the specification function
  `Assemble`), and the `id` column.

The model follows the code's exception boundaries:
`parse_tipo` (line 79) and `calculate_T` (line 83) run outside the per-row `try`, so a
malformed code or an unreadable expiry aborts the whole batch rather than skipping the row
(`RowStep`, `AssembleAbortsIff`). `T` is not clamped and is negative for an expired
contract. A code whose kind letter is neither `C` nor `P` is priced as a put (line 88).

## Model

| member | source | states |
|---|---|---|
| `InstrumentCode.ParseTipo` | lambda/scraping_and_iv.py:22-33 | fails exactly when the length is not 11 or the first character is not `O`, with no check of the date digits; on success kind and style decode characters 1 and 2, and the expiry is `code[9..11] + "-" + code[7..9] + "-" + code[3..7]` |
| `InstrumentCode.DecodeKind` | lambda/scraping_and_iv.py:25 | `C` gives Call, `P` gives Put, and every other character gives Unknown (each case as an if-and-only-if) |
| `InstrumentCode.DecodeStyle` | lambda/scraping_and_iv.py:26 | `E` gives European, `A` gives American, and every other character gives Unknown (each case as an if-and-only-if) |
| `InstrumentCode.KindLabel` | lambda/scraping_and_iv.py:25 | the type_CP text contains no `_`, so it cannot break the id key |
| `InstrumentCode.StyleLabel` | lambda/scraping_and_iv.py:26 | the type_EA text contains no `_` |
| `InstrumentCode.ReorderDate` | lambda/scraping_and_iv.py:27-28 | YYYYMMDD becomes a 10-character text with `-` at positions 2 and 5 holding DD, MM and YYYY |
| `InstrumentCode.ReorderDateInverse` | lambda/scraping_and_iv.py:27-28 | reading the reordered fields back in reverse order restores the raw 8 characters, so the reordering loses nothing |
| `InstrumentCode.ParsedExpiryShape` | lambda/scraping_and_iv.py:27-28 | every accepted code yields the `%d-%m-%Y` shape that calculate_T consumes |
| `InstrumentCode.ParseTipoExamples` | lambda/scraping_and_iv.py:22-33 | `OCE20251231` is a European call expiring `31-12-2025`; a 12-character code and a code without the leading `O` are rejected |
| `Calendar.YearStep` | lambda/scraping_and_iv.py:38 | consecutive years' ordinals differ by 366 in a Gregorian leap year and by 365 otherwise |
| `Calendar.DaysBeforeYearMonotone` | lambda/scraping_and_iv.py:38 | a later year starts at least a full year length later |
| `Calendar.OrdinalNext` | lambda/scraping_and_iv.py:38 | the day after a valid date is valid and has the next ordinal, so an ordinal difference counts days as `timedelta.days` does |
| `Calendar.OrdinalMonotone` | lambda/scraping_and_iv.py:38 | the ordinal strictly increases with the date |
| `Calendar.OrdinalOrder` | lambda/scraping_and_iv.py:38 | ordinals compare exactly as the dates do, and equal ordinals mean equal dates |
| `Calendar.ReadDate` | lambda/scraping_and_iv.py:36-37 | succeeds exactly on a `DD-MM-YYYY` text naming a valid date, and the date read formats back to the same text |
| `Calendar.FormatDate` | lambda/scraping_and_iv.py:73 | today's strftime text has the `DD-MM-YYYY` shape |
| `Calendar.ReadFormatted` | lambda/scraping_and_iv.py:73 | reading a formatted date gives the date back |
| `TimeToExpiry.YearFraction` | lambda/scraping_and_iv.py:35-38 | T is zero exactly on equal dates, positive exactly when the expiry is later than today, and negative exactly when it is earlier (no clamping) |
| `TimeToExpiry.CalculateT` | lambda/scraping_and_iv.py:35-38 | succeeds exactly when both texts are readable dates, and then is the day difference over 365 |
| `TimeToExpiry.YearFractionAntisymmetric` | lambda/scraping_and_iv.py:35-38 | swapping the two dates negates T |
| `TimeToExpiry.YearFractionIncreasing` | lambda/scraping_and_iv.py:35-38 | with today fixed, T strictly increases as the expiry moves later |
| `TimeToExpiry.YearFractionChain` | lambda/scraping_and_iv.py:35-38 | T across an intermediate date is the sum of the two legs |
| `TimeToExpiry.CalculateTSameDay` | lambda/scraping_and_iv.py:35-38 | equal readable texts give exactly 0 |
| `TimeToExpiry.CalculateTFormattedToday` | lambda/scraping_and_iv.py:73-83 | today's strftime text is always readable by calculate_T |
| `TimeToExpiry.CalculateTExample` | lambda/scraping_and_iv.py:35-38 | 01-01-2025 to 31-12-2025 gives 364/365 |
| `TimeToExpiry.ExpirationReadable` | lambda/scraping_and_iv.py:27-37 | the expiry of an accepted code is readable exactly when the code's last eight characters are digits naming a valid YYYYMMDD date, and then it reads as that date |
| `LocaleNumber.Delete` | lambda/scraping_and_iv.py:85 | `replace(".", "")` leaves no `.` and shortens the text by the number of `.` |
| `LocaleNumber.DeletePositions` | lambda/scraping_and_iv.py:85 | `replace(".", "")` keeps every other character in order: the one at position i moves to position i minus the number of `.` before it |
| `LocaleNumber.Substitute` | lambda/scraping_and_iv.py:85 | `replace(",", ".")` keeps the length and changes each `,` to `.` and nothing else |
| `LocaleNumber.Normalize` | lambda/scraping_and_iv.py:85-87 | `s.replace(".", "").replace(",", ".")` leaves no `,`, has one `.` per input `,`, is shorter by the number of input `.`, and keeps every character other than `.` and `,` in its original order |
| `LocaleNumber.NormalizePositions` | lambda/scraping_and_iv.py:85-87 | each input character other than `.` lands, with `,` read as `.`, at its own position less the number of `.` before it, so the decimal point sits where the decimal comma was among the kept characters |
| `LocaleNumber.NormalizeDecimalComma` | lambda/scraping_and_iv.py:85-87 | `"1,5"` becomes `"1.5"` |
| `LocaleNumber.NormalizeGrouped` | lambda/scraping_and_iv.py:85-87 | a number with one thousands `.` and a decimal `,` between separator-free parts, such as `"1.000,5"`, becomes the parts joined with the `.` dropped and the `,` turned into `.`: `"1000.5"` |
| `LocaleNumber.NormalizeUndo` | lambda/scraping_and_iv.py:85-87 | turning the decimal points back into commas gives the input with only the thousands dots removed |
| `LocaleNumber.CountSubstitute` | lambda/scraping_and_iv.py:85-87 | after substitution the target character counts both kinds and the source character is gone |
| `LocaleNumber.CountDelete` | lambda/scraping_and_iv.py:85-87 | deleting one character keeps the count of every other character |
| `Pricing.BlackScholesPrice` | lambda/scraping_and_iv.py:40-48 | exactly 0.0 whenever T <= 0 or sigma <= 0, independent of the closed form; otherwise the closed form, except that a zero strike raises in `S / K` |
| `Pricing.Objective` | lambda/scraping_and_iv.py:55-57 | the searched function is the model price minus the market price, raises exactly where the pricer raises, and is minus the market price at every sigma <= 0 |
| `Pricing.Brentq` | lambda/scraping_and_iv.py:55-57 | an exception at either end of the bracket propagates; ValueError exactly when both end values have the same strict sign; a zero at an end returns that end (the lower end first); with opposite-sign ends the interior search's answer is returned; OtherError exactly when an end raises or the search fails; a root lies in the bracket |
| `Pricing.ImpliedVolatility` | lambda/scraping_and_iv.py:50-60 | Undefined without a solve when T == 0 or the market price is 0; otherwise Undefined exactly on brentq's ValueError and escaping exactly on any other exception; a defined IV is brentq's root and lies in [0, 10] |
| `Pricing.ExpiredQuoteUndefined` | lambda/scraping_and_iv.py:40-60 | a negative T with a non-zero price gives Undefined, since every model price is 0.0 |
| `Pricing.PriceAboveBracketUndefined` | lambda/scraping_and_iv.py:50-60 | a market price above the model price at sigma = 10 gives Undefined, not an exception |
| `Pricing.ZeroStrikeEscapes` | lambda/scraping_and_iv.py:43-60 | a zero strike makes the objective raise at sigma = 10, and the exception escapes implied_volatility |
| `Pricing.DefinedNotLowerEndpoint` | lambda/scraping_and_iv.py:51-57 | IV 0 can only come from the interior search, because the guard makes the objective non-zero at sigma = 0 |
| `MeffScrape.PricingType` | lambda/scraping_and_iv.py:88 | only Call is priced as a call; Put and Unknown are priced as puts |
| `MeffScrape.ParseQuote` | lambda/scraping_and_iv.py:84-87 | the quote exists exactly when the row has a 13th cell and strike (cols[5]), spot and premium (cols[17]) all parse after normalisation, and it holds those three values |
| `MeffScrape.RowIv` | lambda/scraping_and_iv.py:84-94 | any parse failure or exception in the IV call gives Undefined for that row; otherwise the IV is implied_volatility's result at r = 0.03 |
| `MeffScrape.RowStep` | lambda/scraping_and_iv.py:76-97 | an untagged row adds nothing; a rejected code aborts; with a non-empty today an unreadable expiry aborts and otherwise exactly one record is built, carrying the row's cells, the labels, its T and its IV |
| `MeffScrape.TaggedRows` | lambda/scraping_and_iv.py:76-78 | the rows passing `if tipo:` (data-tipo present and non-empty): every kept row is tagged and from the input, and every tagged input row is kept |
| `MeffScrape.Assemble` | lambda/scraping_and_iv.py:76-97 | the loop's specification: an Ok result means no row raised outside the try, and it holds at most one record per row (exactly one per tagged row is `OneRecordPerTaggedRow`) |
| `MeffScrape.ScrapeRows` | lambda/scraping_and_iv.py:74-97 | the loop's result equals `Assemble` over all rows |
| `MeffScrape.AbortPersists` | lambda/scraping_and_iv.py:76-97 | once a prefix of the rows aborts, the batch aborts with the same error |
| `MeffScrape.AssembleAbortsIff` | lambda/scraping_and_iv.py:76-97 | the batch aborts exactly when some row raises outside the try |
| `MeffScrape.FirstErrorReported` | lambda/scraping_and_iv.py:76-97 | the batch reports the error of the first aborting row |
| `MeffScrape.OneRecordPerTaggedRow` | lambda/scraping_and_iv.py:76-97 | without an abort and with a non-empty today there is exactly one record per row with a non-empty data-tipo, in row order, each built from that row |
| `MeffScrape.NoRecordsWithoutToday` | lambda/scraping_and_iv.py:82 | with an empty today (`if cols[0]`) no record is emitted |
| `MeffScrape.EmittedRecordFacts` | lambda/scraping_and_iv.py:80-97 | a built record is stamped with today and carries the T of its own readable expiry |
| `MeffScrape.EmittedRecordsCarryT` | lambda/scraping_and_iv.py:83-97 | every emitted record has T appended, computed from its own expiry against today |
| `MeffScrape.SplitFirstJoin` | lambda/scraping_and_iv.py:114-118 | splitting `x + "_" + y` at its first underscore gives back x and y when x has no underscore |
| `MeffScrape.RecordId` | lambda/scraping_and_iv.py:114-118 | the id `expiration_date_type_CP_type_EA_strike_price` of a record with no `_` in its first three parts splits back into those four parts, with the raw, un-normalised strike text |
| `MeffScrape.KeyInjective` | lambda/scraping_and_iv.py:114-118 | two records with the same id agree on expiry, kind label, style label and raw strike |
| `MeffScrape.EmittedRecordKeyReady` | lambda/scraping_and_iv.py:114-118 | an emitted record with a strike cell has no underscore in its first three id parts |
| `MeffScrape.EmittedRecordsKeyReady` | lambda/scraping_and_iv.py:114-118 | every emitted record with a strike cell has an id that splits back |

## Left out

- Selenium (`setup_driver`, page navigation, `find_element`, `driver.quit`, lines 17-20, 63-71 and 99): the rows and the price text are inputs (`Row`, `Env.priceToday`).
- The clock: `time.strftime("%d-%m-%Y")` is the parameter `Env.today`. `FormatDate` models its output for a given date.
- The numeric body of Black-Scholes (lines 43-48: `np.log`, `np.sqrt`, `np.exp`, `norm.cdf`) is the parameter `ClosedForm`. Floating point, overflow and NaN results (for instance the log of a negative `S / K`) are not modelled.
- Pricing.Brentq: the end-point evaluation, the ValueError on equal signs and the zero-end returns are modelled, following scipy's documented contract. The interior iterations, tolerances and iteration limit are the parameter `Search`, whose `None` stands for the RuntimeError raised on non-convergence.
- Python's `float()` is the parameter `Env.parseFloat`. Its grammar, and special texts such as `"nan"` or `"inf"`, are not modelled.
- Calendar.ReadDate: accepts only zero-padded ASCII-digit fields. pandas also accepts a space-padded day and non-ASCII decimal digits, and an unpadded one-digit day or month (such as `1-1-2025`); the last cannot reach it, since strftime pads and a parse_tipo expiry has its dashes at positions 2 and 5. Dates outside pandas' nanosecond timestamp range are accepted here, though pandas rejects them.
- Calendar.ReadDate: pandas turns the empty text and the NaT spellings ("NaT", "nat", "NAT", "nan", "NaN", "None", "none", "NONE") into NaT without raising, so calculate_T then returns NaN. Here they are unreadable, and a tagged row then aborts the batch. Only `Env.today` can hold such a text: strftime never writes one, and an expiry from parse_tipo always has `-` at positions 2 and 5.
- TimeToExpiry.YearFraction: the division by 365.0 is exact real division, without float rounding.
- The `print` diagnostics in `implied_volatility` and the loop.
- `black_scholes_price` returning `None` for an option type other than `"call"` or `"put"` cannot happen: the loop only passes those two, and `OptionType` has exactly two values.
- The DataFrame construction, renaming and dropping of columns (lines 101-112). A record is kept with all its cells. For rows with other than 13 cells, pandas pads or refuses the frame, and that is not modelled.
- RecordId: is defined only for records with a strike cell. For a tagged row without cells, the source appends T right after the five leading columns (lines 95-96), so its `strike_price` column, and therefore its id, carries the text of T; that is not modelled.
- `save_df_to_dynamodb` and the `__main__` block (lines 122-143): DynamoDB writes with credentials from the environment.
- `api/api.py`, `app/app.py`, `app/scraping.py` and `tests/test_connection.py`: HTTP API, dashboard, a second scraper and a network check. They are not part of this model.
