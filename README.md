# Receipt processor: a Dafny model

This project models the receipt-processor web service in `main.go`. A client
posts a receipt, which holds a retailer name, a purchase date and time, a
list of items and a total. The service checks that every required field is
present and stores the receipt under a fresh id. A later request for
`/receipts/<id>/points` gets the receipt's score from the points calculator.
A request whose id comes out empty, such as `/receipts/`, lists every stored
receipt.

The model is split into modules that follow the program's pieces:

- `Receipts`: the `Receipt` and `Item` records, and the required-field check.
- `Points`: the seven scoring rules as functions. `Points` is their sum.
  `CalculatePoints` is the handler's own loop, which adds one rule after
  another into a running total, and it is proved equal to `Points`.
- `Amounts`, `Timestamps`, `Text`, `Digits`: what the rules call.
  - `strconv.ParseFloat` on plain decimals. Amounts are kept exact, as
    `units / 10^scale`, and each float test of the rules is an integer test
    proved equal to the exact real test.
  - `time.Parse` with the layouts `2006-01-02` and `15:04`.
  - `strings.TrimSpace`, `TrimPrefix` and `TrimSuffix`, and `len` as a
    UTF-8 byte count.
  - The filter `[^a-zA-Z0-9]`.
- `Store`:
  - the process-wide map as the class `ReceiptStore`, with a
    `map<string, Receipt>` field;
  - the submission handler's validation and insert (`Process`);
  - the lookup (`Lookup`);
  - the listing loop (`List`);
  - the path-to-id extraction (`ExtractId`);
  - the points request that combines them (`Query`).
- `Examples`: worked receipts and single-rule cases, proved from the
  general lemmas. They include the five-item "Target" receipt (28 points)
  and the "M&M Corner Market" receipt (109 points).

Every parse error in the calculator is discarded, as the Go code does:
- a total or price that does not parse counts as 0;
- a date that does not parse is Go's zero date, whose day is 1 (odd, so it earns 6);
- a time that does not parse has hour 0.

A score might be expected to be non-negative. The code does not guarantee
it: a negative item price adds a negative amount. The model follows the
code. The contract of `Points.Points` gives the bound when no price is
negative, and `Examples.NegativePriceScoresBelowZero` exhibits
a receipt that scores -1.

One might expect a time to be exactly `HH:MM`. Go's `15:04` layout also
accepts a one-digit hour. The model follows the code, as
`Examples.UnpaddedHour` shows.

The extraction on its own maps `/receipts//points` to the empty id
(`Store.EmptyPointsPathExample`). In the running service such a path does
not reach the handler: Go's default request multiplexer cleans it first,
redirecting to `/receipts/points`, whose id is `points`. That path cleaning
belongs to the HTTP plumbing, which is left out.

## Model

| member | source | states |
|---|---|---|
| Points.CalculatePoints | main.go:121-165 | the running total the handler builds is exactly the sum of the seven rule contributions (`Points`); the receipt is a value and is not changed |
| Points.RetailerPointsCountsAlnum | main.go:124-127 | rule 1 adds the number of positions of the retailer name that hold an ASCII letter or digit |
| Text.StripNonAlnumMembers | main.go:125-126 | the filtered name holds exactly the ASCII letters and digits of the name, and nothing else |
| Text.StripNonAlnumCounts | main.go:125-127 | the length of the filtered name is the number of letter-or-digit positions of the name |
| Text.StripNonAlnumAppend | main.go:125-126 | filtering a concatenation is the concatenation of the filtered parts |
| Text.StripNonAlnumKeepsAlnum | main.go:125-126 | a name made only of letters and digits passes the filter unchanged |
| Amounts.AmountOrZero | main.go:130 | an amount that fails to parse has value 0, as the discarded error leaves it |
| Amounts.FormatParseRoundTrip | main.go:130 | every exact amount written in plain decimal notation parses back to itself |
| Amounts.ParseDotted | main.go:130 | `whole.frac` parses to its digits as units, with the number of fraction digits as scale |
| Amounts.DecimalReading | main.go:130 | `whole.frac` denotes whole + frac / 10^len(frac) |
| Amounts.ParseAmount | main.go:130 | only a leading '-' gives a negative amount; which texts parse at all is stated by `ParseAmountAccepts` |
| Amounts.ParseAmountAccepts | main.go:130 | an amount parses exactly when, after an optional sign, it is digits with at most one point and at least one digit |
| Amounts.ScanAccepts | main.go:130 | the digit scanner accepts exactly digit-and-point texts with no second point and with a digit somewhere |
| Amounts.OutsideGrammarIsZero | main.go:147 | any text outside that grammar counts as the amount 0 |
| Amounts.NegatedValue | main.go:130 | a leading '-' in front of an unsigned amount parses exactly when the amount does, to the negated value |
| Amounts.ScanDigits | main.go:130 | a run of digits shifts the accumulated units by its length and, after the point, grows the scale by as much |
| Amounts.IsWholeMeaning | main.go:131 | the integer round-dollar test holds exactly when the amount's real value equals its floor |
| Amounts.IsQuarterMultipleMeaning | main.go:136 | the integer quarter test holds exactly when four times the value is a whole number, i.e. the value is a multiple of 0.25 |
| Amounts.WholeIsQuarterMultiple | main.go:131-138 | a round-dollar amount is a multiple of 0.25 |
| Amounts.CeilFifthMeaning | main.go:148 | the rule-5 award is the ceiling of a fifth of the price: the least integer not below value / 5 |
| Amounts.CeilFifthNonNegative | main.go:148 | a non-negative price never earns a negative award |
| Amounts.CeilDiv | main.go:148 | the integer ceiling q of a / b satisfies b(q-1) < a <= bq |
| Points.RoundDollarRule | main.go:129-133 | rule 2 adds 50 exactly when the total's value equals its floor, and 0 otherwise |
| Points.QuarterRule | main.go:135-138 | rule 3 adds 25 exactly when four times the total's value is whole, and 0 otherwise |
| Points.RoundTotalEarnsBoth | main.go:129-138 | a total that earns the round-dollar 50 also earns the quarter 25 |
| Points.UnparsableTotalEarnsBoth | main.go:130-138 | a total that fails to parse counts as 0 and earns 50 + 25 |
| Points.ItemRule | main.go:143-150 | an item earns 0 unless its trimmed description's byte length is a multiple of 3; otherwise it earns the ceiling of a fifth of its price |
| Points.AsciiItemPoints | main.go:144-149 | an ASCII description padded with white space is scored by the length of its core |
| Points.PaddedAsciiLength | main.go:145-146 | trimming white space off an ASCII core leaves a byte length equal to the core's length |
| Points.ItemsPointsAppend | main.go:144-150 | rule 5 over a list is the sum over any split of the list |
| Points.ItemsPoints | main.go:143-150 | rule 5 over all items adds nothing negative when no price is negative; `ItemsPointsAppend` states that it sums item by item |
| Points.OddDayRule | main.go:152-156 | for every valid date written in the layout, rule 6 adds 6 exactly when the day is odd |
| Points.UnparsableDateEarns6 | main.go:153-156 | a date that fails to parse reads as day 1 and earns 6 |
| Points.AfternoonRule | main.go:158-162 | for every valid time written with or without hour padding, rule 7 adds 10 exactly when the hour is 14 or 15 |
| Points.UnparsableTimeEarnsNothing | main.go:159-162 | a time that fails to parse reads as hour 0 and earns nothing |
| Points.Points | main.go:121-165 | the score, the sum of the seven rules, is never negative when no item price is negative; `CalculatePoints` is proved to compute it |
| Points.RetailerPoints | main.go:124-127 | rule 1 is at most the name's length; `RetailerPointsCountsAlnum` states that it counts the letter-or-digit positions |
| Points.RoundDollarPoints | main.go:129-133 | rule 2 awards 0 or 50; `RoundDollarRule` states when |
| Points.QuarterPoints | main.go:135-138 | rule 3 awards 0 or 25; `QuarterRule` states when |
| Points.PairPoints | main.go:140-141 | rule 4 is a multiple of 5, with one 5 per complete pair of items: twice its fifth is the item count, or one less |
| Points.PairPointsAddPair | main.go:140-141 | two more items always add exactly 5 |
| Points.ItemPoints | main.go:143-150 | one item earns nothing unless its trimmed description's byte length is a multiple of 3, and nothing negative unless its price is negative; `ItemRule` states the amount |
| Points.OddDayPoints | main.go:152-156 | rule 6 awards 0 or 6; `OddDayRule` and `UnparsableDateEarns6` state when |
| Points.AfternoonPoints | main.go:158-162 | rule 7 awards 0 or 10; `AfternoonRule` and `UnparsableTimeEarnsNothing` state when |
| Receipts.HasRequiredFields | main.go:62 | a receipt passes exactly when none of its four text fields is empty and it has at least one item; `ReceiptStore.Process` and `RejectedLeavesStore` show it decides storage |
| Text.TrimSpace | main.go:145 | the trimmed text is no longer than the input and has no white space at either end; `TrimSpaceSlice` and `TrimSpaceIdempotent` state what is cut |
| Text.StripNonAlnum | main.go:125-126 | the filtered name is no longer than the name and holds only ASCII letters and digits; `StripNonAlnumMembers` states that it keeps all of them |
| Text.TrimSpaceOfPadded | main.go:145 | trimming white space off a trimmed core padded with white space gives the core back |
| Text.TrimSpaceSlice | main.go:145 | the trimmed text is a contiguous slice of the input with only white space on either side |
| Text.TrimSpaceIdempotent | main.go:145 | the trimmed text has no white space at either end, and trimming it again changes nothing |
| Text.TrimLeftSpaceSplit | main.go:145 | trimming the left end removes exactly a prefix of white space |
| Text.TrimRightSpaceSplit | main.go:145 | trimming the right end removes exactly a suffix of white space |
| Text.ByteLen | main.go:146 | the UTF-8 byte length of a text lies between its length in characters and four times that |
| Text.ByteLenAscii | main.go:146 | an ASCII text has as many bytes as characters |
| Text.ByteLenAppend | main.go:146 | byte lengths add up over concatenation |
| Text.TrimPrefix | main.go:84 | with the prefix present, prefix + result is the input; otherwise the input is returned unchanged |
| Text.TrimSuffix | main.go:85 | with the suffix present, result + suffix is the input; otherwise the input is returned unchanged |
| Timestamps.ParseDate | main.go:153 | every date the layout accepts is a real calendar date with a four-digit year |
| Timestamps.DateRoundTrip | main.go:153 | every valid date written as YYYY-MM-DD parses back to itself |
| Timestamps.DateParseIsExact | main.go:153 | any text that parses as a date is exactly the layout's rendering of that date |
| Timestamps.DateFromParts | main.go:153 | YYYY-MM-DD digits parse to that date when it exists in the calendar, and fail otherwise |
| Timestamps.DayOf | main.go:153-154 | the day rule 6 reads always lies in 1..31 |
| Timestamps.ParseClock | main.go:159 | every time the layout accepts has hour below 24 and minute below 60 |
| Timestamps.ClockRoundTrip | main.go:159 | every valid time, written with a padded or an unpadded hour, parses back to itself |
| Timestamps.ClockFromParts | main.go:159 | H:MM or HH:MM digits parse to that time when it is a valid time, and fail otherwise |
| Timestamps.ClockParseForms | main.go:159 | any text that parses as a time is one of the two renderings of that time |
| Timestamps.HourOf | main.go:159-160 | the hour rule 7 reads is always below 24 |
| Digits.DigitsRoundTrip | main.go:153-159 | a fixed-width digit field is the zero-padded rendering of its own value |
| Digits.NatDigitsRoundTrip | main.go:153-159 | the zero-padded rendering of a number reads back as that number |
| Digits.DigitsValueAppend | main.go:130-159 | the value of two digit runs side by side is the first shifted past the second, plus the second |
| Digits.DigitsValueBound | main.go:130-159 | a run of n digits reads as a number below 10^n |
| Store.ExtractId | main.go:84-85 | the extracted id is no longer than the path and, when the route prefix is present, no longer than what follows it |
| Store.PointsPathId | main.go:84-85 | `/receipts/<id>/points` yields `<id>`, whatever the id holds |
| Store.BarePathId | main.go:84-85 | `/receipts/<id>` yields `<id>`, unless the id itself ends in `/points`, in which case that tail is cut |
| Store.PointsPathExample | main.go:84-85 | `/receipts/abc/points` yields `abc` |
| Store.BarePathExample | main.go:84-85 | `/receipts/abc` yields `abc` |
| Store.RootPathExample | main.go:84-87 | `/receipts/` yields the empty id, which selects the listing |
| Store.EmptyPointsPathExample | main.go:84-87 | the extraction alone maps `/receipts//points` to the empty id (the multiplexer redirects that path before it gets here) |
| Store.RejectedLeavesStore | main.go:62-65 | a submission leaves the store unchanged exactly when it misses a required field |
| Store.AcceptedAddsOne | main.go:68-69 | an accepted submission is found under its id, every earlier entry is kept, and the store grows by exactly one entry |
| Store.StoredStaysComplete | main.go:62-69 | submissions never put a receipt with a missing field into the store |
| Store.EnumeratesCount | main.go:88-99 | a listing of the store has exactly one entry per stored receipt |
| Store.ScoredByPointsPath | main.go:84-118 | the points path of a stored id is answered with exactly that receipt's score |
| Store.NotFoundByPointsPath | main.go:106-110 | the points path of a non-empty id that is not stored is answered with not-found |
| Store.ListedByRoot | main.go:84-104 | the route root is answered with a listing of every stored (id, receipt) pair |
| Store.ReceiptStore.constructor | main.go:15 | the store starts empty |
| Store.ReceiptStore.Process | main.go:61-75 | a submission missing a field is rejected and the store is unchanged; otherwise it is stored under the fresh id, which is returned; only complete receipts are ever stored |
| Store.ReceiptStore.Lookup | main.go:106-110 | a stored id gives its receipt, and an unknown id gives nothing |
| Store.ReceiptStore.List | main.go:88-99 | the listing holds every stored (id, receipt) pair exactly once, in an unspecified order |
| Store.ReceiptStore.Query | main.go:83-118 | an empty id gets the full listing, an unknown id gets not-found, and a stored id gets the score of its receipt |
| Examples.TargetRetailerPoints | main.go:124-127 | "Target" earns 6 |
| Examples.CornerMarketRetailerPoints | main.go:124-127 | "M&M Corner Market" earns 14 |
| Examples.OddCentsTotal | main.go:129-138 | "35.35" earns neither 50 nor 25 |
| Examples.RoundTotal | main.go:129-138 | "9.00" earns 50 and 25 |
| Examples.QuarterTotal | main.go:129-138 | "10.25" earns 25 only |
| Examples.TenCentsTotal | main.go:129-138 | "0.10" earns neither |
| Examples.PairPointsExamples | main.go:140-141 | 1 item earns 0; 4 and 5 items earn 10 |
| Examples.PizzaItemPoints | main.go:143-150 | "Emils Cheese Pizza" at 12.25 earns 3 |
| Examples.KlarbrunnItemPoints | main.go:143-150 | "   Klarbrunn 12-PK 12 FL OZ  " at 12.00 is trimmed to 24 bytes and earns 3 |
| Examples.MountainDewItemPoints | main.go:143-150 | a 17-byte description earns nothing, whatever the price |
| Examples.TwentyByteItemPoints | main.go:143-150 | "Knorr Creamy Chicken" and "Doritos Nacho Cheese" (20 bytes each) earn nothing, whatever the price |
| Examples.GatoradeItemPoints | main.go:143-150 | an 8-byte description earns nothing |
| Examples.NegativePriceItem | main.go:143-150 | "abc" at -5.00 adds -1 |
| Examples.FirstOfJanuary | main.go:152-156 | "2022-01-01" is odd and earns 6 |
| Examples.SecondOfJanuary | main.go:152-156 | "2022-01-02" earns nothing |
| Examples.TwentiethOfMarch | main.go:152-156 | "2022-03-20" earns nothing |
| Examples.ThirtiethOfFebruary | main.go:152-156 | "2022-02-30" does not parse, reads as day 1 and earns 6 |
| Examples.LeapDay | main.go:152-156 | "2024-02-29" is a valid date and earns 6 |
| Examples.ShortMonth | main.go:152-156 | "2022-1-02" does not parse and earns 6 |
| Examples.HalfPastTwo | main.go:158-162 | "14:33" earns 10 |
| Examples.OneMinuteToFour | main.go:158-162 | "15:59" earns 10 |
| Examples.FourOClock | main.go:158-162 | "16:00" earns nothing |
| Examples.OneMinuteToTwo | main.go:158-162 | "13:59" earns nothing |
| Examples.OnePastOne | main.go:158-162 | "13:01" earns nothing |
| Examples.Midnight | main.go:158-162 | "00:00" earns nothing |
| Examples.MinuteSixty | main.go:158-162 | "14:60" does not parse and earns nothing |
| Examples.UnpaddedHour | main.go:158-162 | "9:05" parses with a one-digit hour and earns nothing |
| Examples.TargetItemsPoints | main.go:143-150 | the five Target items earn 6 under rule 5 |
| Examples.TargetReceiptScores28 | main.go:121-165 | the Target receipt of 2022-01-01 13:01 totalling 35.35 scores 28 |
| Examples.GatoradeItemsPoints | main.go:143-150 | four Gatorade items earn nothing under rule 5 |
| Examples.CornerMarketReceiptScores109 | main.go:121-165 | the M&M Corner Market receipt of 2022-03-20 14:33 with four items totalling 9.00 scores 109 |
| Examples.NegativePriceScoresBelowZero | main.go:121-165 | a receipt with one item "abc" at -5.00 scores -1, so the score can be negative |

## Left out

- HTTP plumbing is not modelled: route registration, the server, method checks, status codes and response headers (main.go:43-52, 72-81, 101-103, 115-118). `Query` returns which answer is sent, not the wire format. The multiplexer's path cleaning, which redirects a path such as `/receipts//points` to `/receipts/points`, is part of that plumbing. A `/receipts/process` request never reaches `getPoints`, because the router sends it to the submission handler.
- JSON decoding and encoding are not modelled (main.go:55-59, 30-40). A submission arrives as an already decoded `Receipt`, and a malformed body is not represented.
- `uuid.New()` is not modelled (main.go:68). `Process` takes the id as a parameter and requires it to be non-empty and unused; a random UUID string is always both.
- Concurrent access to the unsynchronised global map is not modelled (main.go:15, 69, 89, 106). The model is single-threaded.
- Go's map iteration order is random. `List` picks each next key with a choice the model leaves open, so its contract fixes the contents and not the order.
- Amounts.ParseAmount: only the plain decimal grammar of `strconv.ParseFloat` is modelled, i.e. an optional sign, digits and at most one point, with at least one digit (`ParseAmountAccepts` proves that this is exactly what parses). Exponents, hexadecimal floats, underscores, "Inf" and "NaN" are treated as parse failures, so they count as 0.
- Amounts.IsWhole: amounts are exact decimals, not binary floating point, so the rounding that float64 applies to amounts with many digits is not modelled. For amounts with at most two decimals of ordinary size, the float and exact tests agree.
- Amounts.CeilFifth: same as above; `price * 0.2` is computed exactly, without float rounding.
- Points.CalculatePoints: Go's 64-bit `int` wrap-around on overflow is not modelled; the score is an unbounded integer.
- Text.IsSpace follows Go's `unicode.IsSpace` set. The model works on Unicode scalar values; invalid UTF-8 in the input is not represented.
- Store.ExtractId: its own contract states only length bounds. What the extraction means is stated by `PointsPathId`, `BarePathId` and the examples.
- Text.StripNonAlnum: its own contract states only a length bound and that every kept character is a letter or digit. Its content is stated by `StripNonAlnumMembers`, `StripNonAlnumCounts` and `StripNonAlnumAppend`.
