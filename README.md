# Rust exercise solutions, modelled in Dafny

This project models ten small Rust programs from a set of exercise solutions and proves what each
one computes:

- **Doubly linked list** (`exercises/easy/algorithm2.rs`). Nodes live on the heap and are linked
  both ways. The list supports tail append, lookup by index (recursive and iterative) and in-place
  reversal that swaps every node's `next` and `prev`. It is modelled as the classes
  `DoublyLinkedList.Node` and `DoublyLinkedList.LinkedList`. A ghost sequence `nodes` and a
  footprint `Repr` tie the links to the list's contents.
- **Calendar summary** (`exercises/hard/solutiont4/src/calc_time.rs`). `time_info` turns a date
  `YYYY-MM-DD` into six comma-separated fields: week number, weekday, day of year, days left in
  the year, days to the spring festival, and days to the next trading day. It relies on helpers
  for leap years, day counting, `next_day` and the trading-day search.
- **District file and province count** (`exercises/hard/solutiont3/src/district.rs`). A
  line-by-line reader builds the batches of city lines. `count_provinces` merges each city with
  every province that already holds it or one of its neighbours, and reports the number of
  provinces per batch.
- **Base converter** (`exercises/normal/solution2/src/converter.rs`). It converts `value(base)`
  to another base between 2 and 16, giving the empty string on any error.
- **Largest prime factor** (`exercises/hard/solutiont2/src/prime_factor.rs`). It uses trial
  division: first the twos, then odd divisors up to a cap of 10^6, then the cofactor.
- **Odd composites that are not a prime plus twice a square**
  (`exercises/hard/solutiont1/src/conjecture.rs`). The program searches for the first two such
  numbers.
- **Fewest bills** (`exercises/normal/solution4/src/rec_mc.rs`). A bottom-up table over the
  denominations 1, 2, 5, 10, 20, 30, 50 and 100.
- **Anagram check** (`exercises/easy/algorithm13.rs`). Spaces are dropped and letters lowercased,
  then the characters are counted up and down in a map.
- **Distinct tokens** (`exercises/normal/solution1/src/count_distinct.rs`). The number of distinct
  non-empty comma-separated pieces of a string.
- **Odd Fibonacci sum** (`exercises/normal/solution5/src/fibnacci.rs`). The sum of the odd
  Fibonacci numbers up to a threshold.

Functions and lemmas model code that only computes values. Where the source loops or updates
state, the model uses methods with loops and invariants, each proved against a specification
function: the array of the coin table, the linked nodes of the list, and the maps of the province
merge.

Shared modules:

- `Wrappers`: `Option`.
- `Text`: the Rust `str` operations the programs use, on `seq<char>`: `split`, `split_once`,
  `join`, `trim`, `trim_matches`, `contains`, decimal rendering and `parse::<u32>()`.
- `NumberTheory`: divisibility, primality, and Euclid's lemma.
- `Seqs`: sequence reversal.

Where a Rust call would panic (an `unwrap` on `None`, an index out of range, an unsigned
subtraction below zero), the model either has a `requires` that excludes the input or returns
`None`. Each member's comment says which.

## Model

| member | source | states |
|---|---|---|
| DoublyLinkedList.Node.constructor | exercises/easy/algorithm2.rs:18-25 | a new node holds the value and has no `next` and no `prev` |
| DoublyLinkedList.LinkedList.constructor | exercises/easy/algorithm2.rs:40-47 | the new list is valid and empty: length 0, no start, no end, no contents |
| DoublyLinkedList.LinkedList.Add | exercises/easy/algorithm2.rs:49-60 | the list stays valid and grows by one. Its contents are the old contents plus `obj` at the end. The new node is fresh and is the new `end`; its `prev` is the old end, and the old end's `next` is the new node. In an empty list it is also the new `start` |
| DoublyLinkedList.LinkedList.Appended | exercises/easy/algorithm2.rs:49-60 | once the new node is linked behind the old end and only the old end's `next` changed, the list over the old nodes plus the new one is valid again: its footprint is the list and exactly its nodes, and its contents gained the new value at the end |
| DoublyLinkedList.LinkedList.GetIthNode | exercises/easy/algorithm2.rs:62-74 | from a node at position p, it gives the value at position p + index when that is within the list, and `None` otherwise; this includes every negative index and the null node |
| DoublyLinkedList.LinkedList.Get | exercises/easy/algorithm2.rs:119-138 | the iterative `get` gives `Some(contents[index])` for 0 <= index < length and `None` otherwise. For every index it agrees with the recursive `get_ith_node` started at `start` |
| DoublyLinkedList.ReverseLinks | exercises/easy/algorithm2.rs:81-100 | the loop swaps each node's `next` and `prev` and keeps every value. It returns the last node |
| DoublyLinkedList.LinkedList.SwappedIsValid | exercises/easy/algorithm2.rs:81-103 | once every link is swapped, with `start` and `end` exchanged, the list over the nodes in reverse order is valid again over the same footprint, and it holds the old contents reversed |
| DoublyLinkedList.LinkedList.Reverse | exercises/easy/algorithm2.rs:75-104 | the list stays valid over the same nodes and the same length. The node order and the contents are reversed, and `start` and `end` are exchanged |
| DoublyLinkedList.LinkedList.NodeDisplay | exercises/easy/algorithm2.rs:184-193 | a node renders as the values from it to the end, joined by `", "` |
| DoublyLinkedList.LinkedList.Display | exercises/easy/algorithm2.rs:172-181 | the list renders as all its values joined by `", "`; the empty list renders as the empty string |
| DoublyLinkedList.GetAfterReverse | exercises/easy/algorithm2.rs:220-251 | on any valid list, `get(i)` after `reverse` gives the value that was at position `length - 1 - i`, and `None` for an index outside the list; this is the check both reversal tests make |
| DoublyLinkedList.ReverseCases | exercises/easy/algorithm2.rs:220-251 | the expected vectors of the two reversal tests are their inputs reversed |
| CalcTime.LeapYearCycle | exercises/hard/solutiont4/src/calc_time.rs:196-199 | the leap-year rule repeats every 400 years |
| CalcTime.LeapYearExamples | exercises/hard/solutiont4/src/calc_time.rs:196-199 | 2000, 2024 and 2028 are leap years; 1900, 2025 and 2100 are not |
| CalcTime.MonthLengths | exercises/hard/solutiont4/src/calc_time.rs:211-216 | the year's table has 12 months. It matches the common table except in February, which has 29 days exactly in a leap year |
| CalcTime.DaysBeforeMonthInYear | exercises/hard/solutiont4/src/calc_time.rs:211-223 | in a leap year the first k months hold one day more than in a common year from March on, and the same number before March |
| CalcTime.DaysInYear | exercises/hard/solutiont4/src/calc_time.rs:211-216 | a year has 366 days if it is a leap year and 365 otherwise |
| CalcTime.DayOfYearRange | exercises/hard/solutiont4/src/calc_time.rs:201-224 | the day of year of a valid date lies between 1 and the length of its year |
| CalcTime.DayOfYear2025 | exercises/hard/solutiont4/src/calc_time.rs:89-98 | the loop adds the common-year month lengths before `month` to `day` |
| CalcTime.DayOfYear2025Agrees | exercises/hard/solutiont4/src/calc_time.rs:89-98 | in 2025 the fixed table gives the same day of year as the year's own table |
| CalcTime.DayOfYearInYear | exercises/hard/solutiont4/src/calc_time.rs:210-224 | the loop adds the year's own month lengths before `month` to `day` |
| CalcTime.TotalDaysStart | exercises/hard/solutiont4/src/calc_time.rs:178-187 | 2025-01-01 is day 1 of the count |
| CalcTime.TotalDays2025Base | exercises/hard/solutiont4/src/calc_time.rs:178-187 | the result is 365 or 366 for each whole year from 2025 up to the date's year, plus the day of year; before 2025 it is the day of year alone |
| CalcTime.ComputeWeekday | exercises/hard/solutiont4/src/calc_time.rs:163-167 | the weekday lies in 0..6 |
| CalcTime.FirstWeekday | exercises/hard/solutiont4/src/calc_time.rs:163-167 | 2025-01-01 is a Wednesday (3) |
| CalcTime.JanuaryWeekday | exercises/hard/solutiont4/src/calc_time.rs:163-167 | in January 2025 the weekday is (day + 2) mod 7 |
| CalcTime.TradingDayExamplesJanuary | exercises/hard/solutiont4/src/calc_time.rs:134-152 | Jan 1, 2025 (a holiday) and Jan 4 and 5 (a weekend) are not trading days; Jan 2 is |
| CalcTime.TradingDayExamplesFebruary | exercises/hard/solutiont4/src/calc_time.rs:134-152 | Jan 31, 2025, inside the spring festival, is not a trading day; Feb 5 is |
| CalcTime.TradingDayExamplesOctober | exercises/hard/solutiont4/src/calc_time.rs:134-152 | Oct 1, 2025 is not a trading day; Oct 2 is |
| CalcTime.NextDay | exercises/hard/solutiont4/src/calc_time.rs:109-123 | the next day's month lies in 1..12 |
| CalcTime.NextDayValid | exercises/hard/solutiont4/src/calc_time.rs:109-123 | the next day is valid in a calendar whose February has 28 days, and it comes strictly later. Within a month it is the day after; past the month's length it is day 1 of the next month; after December it is January 1 of the next year |
| CalcTime.NextDayCount | exercises/hard/solutiont4/src/calc_time.rs:109-123 | in a common year from 2025 on, the next day of a valid date is exactly one later in the day count |
| CalcTime.NextDayIncreases | exercises/hard/solutiont4/src/calc_time.rs:109-123 | from 2025 on, the next day of a valid date is valid and comes later in the day count |
| CalcTime.NewYearCount | exercises/hard/solutiont4/src/calc_time.rs:117-120 | rolling over from Dec 31 to Jan 1 adds exactly one day to the count |
| CalcTime.LeapDaySkipped | exercises/hard/solutiont4/src/calc_time.rs:110-121 | `next_day` skips Feb 29: in 2028 the day after Feb 28 is Mar 1, which is two days later in the count |
| CalcTime.TradingWithin | exercises/hard/solutiont4/src/calc_time.rs:235-245 | from any date, a trading day comes within 33 calls of `next_day`, so the search ends |
| CalcTime.NextTradingDay | exercises/hard/solutiont4/src/calc_time.rs:235-245 | the result is a trading day reached after one or more calls of `next_day`, and no day strictly between is a trading day |
| CalcTime.IterateIncreases | exercises/hard/solutiont4/src/calc_time.rs:43-49 | from 2025 on, a walk of one or more days from a valid date ends later in the day count |
| CalcTime.ParseDate | exercises/hard/solutiont4/src/calc_time.rs:73-79 | a parsed year is never negative. Missing fields and values that fail to parse give `None`, in place of the source's panic |
| CalcTime.ParseFormatted | exercises/hard/solutiont4/src/calc_time.rs:73-79 | parsing a date written `year-month-day` gives the same date back |
| CalcTime.RenderSplits | exercises/hard/solutiont4/src/calc_time.rs:57-60 | the rendered summary splits at its commas into exactly its six rendered fields |
| CalcTime.WeekNumber | exercises/hard/solutiont4/src/calc_time.rs:19-24 | the week number is below 52, and it is 1 for days 1 to 5 |
| CalcTime.WeekAdvancesOnMonday | exercises/hard/solutiont4/src/calc_time.rs:19-24 | past day 5 the week number goes up by one, modulo 52, exactly on a Monday, and stays the same on every other day |
| CalcTime.WeekNumberAtYearEnd | exercises/hard/solutiont4/src/calc_time.rs:19-24 | day 355 is in week 51. Days 356 to 362 are in week 0 because of the `% 52`, and days 363 to 365 are in week 1 |
| CalcTime.WeekdayField | exercises/hard/solutiont4/src/calc_time.rs:26-54 | the weekday field lies in 1..7 and matches (day of year + 2) mod 7; Sunday is written 7 |
| CalcTime.SummaryWeekdayAgrees | exercises/hard/solutiont4/src/calc_time.rs:26-54 | in 2025 the weekday field is `compute_weekday`'s value, with Sunday written 7 in place of 0 |
| CalcTime.Summarize | exercises/hard/solutiont4/src/calc_time.rs:14-60 | each of the six fields means what it should for the date: the day of year by the 2025 table, the week number, the weekday, days left to 365, days to Jan 29 or, past it, to Feb 17 of the next year, and the day-count distance to the first trading day after the date, minus one. From 2025 on the last field is never negative |
| CalcTime.TimeInfo | exercises/hard/solutiont4/src/calc_time.rs:10-64 | the output is the rendering of a summary that describes the parsed date |
| CalcTime.NegativeBefore2025 | exercises/hard/solutiont4/src/calc_time.rs:43-49 | for 2024-12-31 the next trading day is 2025-01-02, and the last field is -365 because the day count restarts in 2025 |
| DistrictParse.Neighbours | exercises/hard/solutiont3/src/district.rs:52-67 | an empty value gives no neighbours. Otherwise there is one neighbour per comma-separated piece, and none contains a comma |
| DistrictParse.UnquoteAll | exercises/hard/solutiont3/src/district.rs:63-66 | unquoting keeps the number of pieces and adds no comma |
| DistrictParse.AddCity | exercises/hard/solutiont3/src/district.rs:70-79 | a repeated city gets the new neighbours appended, and a new city is inserted with them. Every other city is unchanged |
| DistrictParse.ParseLine | exercises/hard/solutiont3/src/district.rs:23-79 | a line never removes a batch and keeps the current batch present; `None` is the panic on a city line with no current batch |
| DistrictParse.SkippedLine | exercises/hard/solutiont3/src/district.rs:24-27 | blank lines and lines opening with `{` change nothing |
| DistrictParse.HeaderLine | exercises/hard/solutiont3/src/district.rs:29-35 | a header line (re)opens an empty batch under the unquoted text before its first colon, and that batch becomes current |
| DistrictParse.ClosingLine | exercises/hard/solutiont3/src/district.rs:37-40 | a line opening with `}` that is not a header changes nothing |
| DistrictParse.MalformedLine | exercises/hard/solutiont3/src/district.rs:43-46 | any other line that does not hold exactly one colon changes nothing |
| DistrictParse.CityLine | exercises/hard/solutiont3/src/district.rs:43-79 | a line `name: value` adds the unquoted name and its neighbours to the current batch; nothing else changes |
| DistrictParse.OrphanCityLine | exercises/hard/solutiont3/src/district.rs:70-70 | a city line before any header is where the source panics |
| DistrictParse.ParseFrom | exercises/hard/solutiont3/src/district.rs:22-80 | reading lines never removes a batch |
| DistrictParse.ParseFromAppend | exercises/hard/solutiont3/src/district.rs:22-80 | reading `a` and then `b` is the same as reading `a + b` |
| DistrictParse.ParseFile | exercises/hard/solutiont3/src/district.rs:15-82 | the loop over the lines yields the batches of `ParseLines` |
| Provinces.MergeCity | exercises/hard/solutiont3/src/district.rs:100-149 | the provinces, as sets of cities, after one city line are the one merge step `MergeView`. A city that owns its province extends it. A city that touches no province adds a new one of itself and its neighbours. Otherwise it joins every touched province with itself and its neighbours under its own name |
| Provinces.TouchedProvinces | exercises/hard/solutiont3/src/district.rs:112-126 | it finds exactly the keys of the provinces holding the city or one of its neighbours, each once |
| Provinces.MergeFound | exercises/hard/solutiont3/src/district.rs:136-148 | removing the found provinces and inserting their union with the city and its neighbours gives the merge step |
| Provinces.MergeOwned | exercises/hard/solutiont3/src/district.rs:107-148 | every province keeps holding the city it is keyed by |
| Provinces.MergeDisjoint | exercises/hard/solutiont3/src/district.rs:128-148 | for a city that names no province, a merge keeps the provinces pairwise disjoint |
| Provinces.MergeCities | exercises/hard/solutiont3/src/district.rs:128-148 | the provinces cover exactly the old cities plus the city and its neighbours |
| Provinces.MergeCoarser | exercises/hard/solutiont3/src/district.rs:136-148 | each old province lies within a new one, and the province under the city's name holds the city and its neighbours |
| Provinces.MergeCount | exercises/hard/solutiont3/src/district.rs:128-148 | untouched, the count goes up by one; otherwise the touched provinces are replaced by one |
| Provinces.MergeKeys | exercises/hard/solutiont3/src/district.rs:131-148 | only the city's own name can become a new province key |
| Provinces.BatchOwned | exercises/hard/solutiont3/src/district.rs:97-150 | after a batch, every province holds the city it is keyed by |
| Provinces.BatchDisjoint | exercises/hard/solutiont3/src/district.rs:97-150 | after a batch of distinct cities, the provinces are pairwise disjoint |
| Provinces.BatchCities | exercises/hard/solutiont3/src/district.rs:97-150 | together the provinces hold exactly the cities named in the batch |
| Provinces.BatchSize | exercises/hard/solutiont3/src/district.rs:97-153 | a batch has at most as many provinces as city lines, and none only when it has no lines |
| Provinces.BatchInside | exercises/hard/solutiont3/src/district.rs:97-150 | each city line ends with the city and all its neighbours in a single province |
| Provinces.CountBatch | exercises/hard/solutiont3/src/district.rs:97-153 | the count is the number of provinces after merging the entries in order |
| Provinces.Enumerate | exercises/hard/solutiont3/src/district.rs:100-100 | iterating a batch lists each city with its neighbours exactly once, in some order |
| Provinces.ProvinceBounds | exercises/hard/solutiont3/src/district.rs:152-153 | whatever the iteration order, a batch's count is at most its number of cities, and zero only for an empty batch |
| Provinces.SortedKeys | exercises/hard/solutiont3/src/district.rs:95-95 | the batch keys are listed once each, in strictly ascending string order |
| Provinces.CountProvinces | exercises/hard/solutiont3/src/district.rs:90-158 | there is one count per batch, in ascending key order. Each count is that batch's province count for the order in which it was iterated, and the counts are joined by commas. The output splits at its commas into exactly one field per batch, and is empty when there is no batch |
| Provinces.CountsReadBack | exercises/hard/solutiont3/src/district.rs:153-157 | splitting the output at commas gives one numeral per batch, and each reads back as that batch's count |
| Provinces.CountProvincesIn | exercises/hard/solutiont3/src/district.rs:90-158 | parsing the lines and then counting gives one count per parsed batch, as above, and one comma-separated field per batch |
| Converter.UpperIsCapital | exercises/normal/solution2/src/converter.rs:36-37 | an ASCII lower-case letter becomes its capital, 32 code points lower; every other character is kept |
| Converter.ToDigit | exercises/normal/solution2/src/converter.rs:38-38 | a digit read in a base is below the base |
| Converter.DigitOf | exercises/normal/solution2/src/converter.rs:36-39 | a character's digit value, read after upper-casing, is below the base |
| Converter.DigitCaseInsensitive | exercises/normal/solution2/src/converter.rs:36-39 | reading a digit is case-insensitive: upper-casing first gives the same value as `to_digit` on the character itself, and a letter reads the same in both cases |
| Converter.HornerNone | exercises/normal/solution2/src/converter.rs:33-44 | reading fails exactly when some character is not a digit of the base |
| Converter.ToDecimal | exercises/normal/solution2/src/converter.rs:33-44 | the loop computes the left-to-right Horner value, or stops with an error at a non-digit |
| Converter.HexDigit | exercises/normal/solution2/src/converter.rs:55-58 | 0-9 are written `0`-`9` and 10-15 are written `a`-`f` |
| Converter.FromDecimal | exercises/normal/solution2/src/converter.rs:47-64 | the loop collects the remainders and reverses them, giving `"0"` for 0 and the digits of `n` otherwise |
| Converter.DigitsAlphabet | exercises/normal/solution2/src/converter.rs:53-61 | each written digit is `0`-`9` or `a`-`f` and reads back as a digit of the base. A positive number's first digit is not `0` |
| Converter.RenderShape | exercises/normal/solution2/src/converter.rs:47-64 | 0 is written `"0"`. The output is never empty, has no leading zero for a positive number, and uses only lower-case digits of the base |
| Converter.DigitsValue | exercises/normal/solution2/src/converter.rs:33-64 | reading back the written digits gives the number |
| Converter.RenderRoundTrip | exercises/normal/solution2/src/converter.rs:33-64 | `to_decimal(from_decimal(n, b), b) == n` for every `n` and every base from 2 to 16 |
| Converter.ParseInput | exercises/normal/solution2/src/converter.rs:21-30 | a successful parse means the input holds exactly one `)`, and the value part holds no parenthesis |
| Converter.ParseWritten | exercises/normal/solution2/src/converter.rs:21-30 | an input `value(base)tail` parses back to that value and base |
| Converter.ConvertBase | exercises/normal/solution2/src/converter.rs:1-20 | the method returns what `Converted` specifies |
| Converter.ConvertedErrors | exercises/normal/solution2/src/converter.rs:1-20 | the result is empty exactly when the input is malformed, either base is outside 2..16, or a character is not a digit of the source base |
| Converter.ConvertWritten | exercises/normal/solution2/src/converter.rs:1-20 | converting the base-b1 writing of `n`, tagged `(b1)`, into base b2 gives the base-b2 writing of `n` |
| Converter.ConvertBinary | exercises/normal/solution2/src/converter.rs:1-20 | `10(2)` converts to `2` in base 10 |
| Converter.ConvertBadDigit | exercises/normal/solution2/src/converter.rs:36-39 | `1g(10)` is rejected with the empty string |
| PrimeFactor.RemoveTwos | exercises/hard/solutiont2/src/prime_factor.rs:10-13 | after the twos are divided out, the trial state holds at divisor 3. The cofactor is odd, and the twos removed times the cofactor give `n` |
| PrimeFactor.RemoveFactor | exercises/hard/solutiont2/src/prime_factor.rs:19-23 | dividing out `i` keeps the trial state with the divisor moved to `i + 2`. If nothing was divided, nothing else changes |
| PrimeFactor.CappedTrial | exercises/hard/solutiont2/src/prime_factor.rs:16-24 | the capped loop keeps the trial state. It stops at an odd divisor that is either past the cap of 10^6 or whose square exceeds the cofactor |
| PrimeFactor.TrialDivide | exercises/hard/solutiont2/src/prime_factor.rs:36-42 | the uncapped loop keeps the trial state and stops once the divisor's square exceeds the cofactor |
| PrimeFactor.LargeCofactor | exercises/hard/solutiont2/src/prime_factor.rs:28-32 | a cofactor above the cap is the answer. It is prime unless it is above 10^12 with no divisor up to 10^6 |
| PrimeFactor.PrimeCofactor | exercises/hard/solutiont2/src/prime_factor.rs:36-47 | once the divisor's square exceeds a cofactor above 1, the cofactor is prime and is the answer |
| PrimeFactor.NoCofactor | exercises/hard/solutiont2/src/prime_factor.rs:33-50 | a cofactor of 1 leaves the last prime divided out as the answer |
| PrimeFactor.Finish | exercises/hard/solutiont2/src/prime_factor.rs:28-50 | the code after the capped loop yields an answer in every branch |
| PrimeFactor.Conclude | exercises/hard/solutiont2/src/prime_factor.rs:1-51 | the last factor of an ascending factorisation divides `n` and bounds every prime divisor of `n` |
| PrimeFactor.FindMaxPrimeFactor | exercises/hard/solutiont2/src/prime_factor.rs:1-51 | 0 and 1 give themselves. Otherwise the result divides `n`, ends an ascending factorisation of `n` into primes, and is at least every prime divisor of `n`. It is prime whenever `n` < (10^6+1)^2; it can only fail to be prime above 10^12 with no factor up to 10^6. A power of two gives 2 |
| Conjecture.WheelStart | exercises/hard/solutiont1/src/conjecture.rs:6-7 | a number that 2 and 3 do not divide has no divisor below 5 |
| Conjecture.WheelStep | exercises/hard/solutiont1/src/conjecture.rs:8-11 | stepping `i` by `w` and `w` to `6 - w` skips only multiples of 2 or 3, so no divisor is missed |
| Conjecture.IsPrimeWheel | exercises/hard/solutiont1/src/conjecture.rs:3-14 | the 6k±1 wheel test is true exactly when `n` is prime |
| Conjecture.FloorSqrt | exercises/hard/solutiont1/src/conjecture.rs:21-21 | the result is the integer square root: k² <= n < (k+1)² |
| Conjecture.RepresentationBound | exercises/hard/solutiont1/src/conjecture.rs:24-27 | a `k` of a representation has 2k² + 2 <= n, hence `k` is below any bound whose double square exceeds `n` |
| Conjecture.SqrtCovers | exercises/hard/solutiont1/src/conjecture.rs:21-27 | every `k` of a representation lies within the floor square root, so the loop misses none |
| Conjecture.Representable | exercises/hard/solutiont1/src/conjecture.rs:20-32 | `found` holds exactly when `n - 2k²` is a prime for some k >= 1 |
| Conjecture.Examine | exercises/hard/solutiont1/src/conjecture.rs:19-35 | an odd candidate from 9 is kept exactly when it is not prime and has no representation |
| Conjecture.SearchStep | exercises/hard/solutiont1/src/conjecture.rs:18-36 | the results after candidate `n` are exactly the ascending counterexamples below `n + 2` |
| Conjecture.SearchBound | exercises/hard/solutiont1/src/conjecture.rs:18-37 | the results also list every counterexample below any smaller bound above them |
| Conjecture.ThreeDividesRest | exercises/hard/solutiont1/src/conjecture.rs:24-27 | for `n` ≡ 2 (mod 3) and `k` not a multiple of 3, `n - 2k²` is a multiple of 3 above 3, so it is not prime |
| Conjecture.Counterexample5777 | exercises/hard/solutiont1/src/conjecture.rs:18-35 | 5777 is an odd composite with no representation |
| Conjecture.Counterexample5993 | exercises/hard/solutiont1/src/conjecture.rs:18-35 | 5993 is an odd composite with no representation |
| Conjecture.BothFound | exercises/hard/solutiont1/src/conjecture.rs:18-18 | once the candidates pass 5993, two counterexamples have been found, so the loop ends |
| Conjecture.GoldbachConjecture | exercises/hard/solutiont1/src/conjecture.rs:1-41 | the result is the first two counterexamples, in ascending order, with no other below the second, which is at most 5993. The output renders them as `a,b` |
| Conjecture.RenderPairReadBack | exercises/hard/solutiont1/src/conjecture.rs:40-40 | the output splits at its comma into the two numbers, which read back as themselves |
| CoinChange.BestFrom | exercises/normal/solution4/src/rec_mc.rs:15-20 | an entry is at most the sentinel and at most `dp[i - c] + 1` for each denomination `c` <= `i`. It equals one of those values unless it is still the sentinel |
| CoinChange.BestReadsBelow | exercises/normal/solution4/src/rec_mc.rs:13-21 | an entry depends only on the entries below it |
| CoinChange.FillRow | exercises/normal/solution4/src/rec_mc.rs:15-20 | the inner loop sets entry `i` to its best value and leaves every other entry alone |
| CoinChange.TwosChange | exercises/normal/solution4/src/rec_mc.rs:3-3 | any amount `i` can be paid in (i + 1) / 2 bills |
| CoinChange.FewestAtMostHalf | exercises/normal/solution4/src/rec_mc.rs:3-3 | the fewest bills for `i` number at most (i + 1) / 2 |
| CoinChange.RowAttained | exercises/normal/solution4/src/rec_mc.rs:15-20 | the entry is the length of some real change for `i`; the sentinel never wins, because the 1 bill always applies |
| CoinChange.RowLower | exercises/normal/solution4/src/rec_mc.rs:15-20 | no change for `i` uses fewer bills than the entry |
| CoinChange.RowFewest | exercises/normal/solution4/src/rec_mc.rs:13-21 | if the entries below `i` are the fewest bills for their amounts, so is entry `i` |
| CoinChange.MinCoins | exercises/normal/solution4/src/rec_mc.rs:1-24 | the result is the fewest bills adding up to `amount`: some change has that many bills and none has fewer. It is at most `amount` |
| Anagram.RemoveSpaces | exercises/easy/algorithm13.rs:18-19 | the result has no space and is no longer than the input, and every other character keeps its count |
| Anagram.Lower | exercises/easy/algorithm13.rs:18-19 | each character is lowercased in place and the length is kept |
| Anagram.RemoveSpacesNone | exercises/easy/algorithm13.rs:18-19 | a string without spaces is unchanged |
| Anagram.NormalAlready | exercises/easy/algorithm13.rs:18-19 | a string with no space and no upper-case ASCII letter is already normalised |
| Anagram.CountChars | exercises/easy/algorithm13.rs:25-29 | the map's keys are the characters of the string, and each value is that character's count |
| Anagram.CountStep | exercises/easy/algorithm13.rs:31-38 | matching one more character of the second string decrements its count and keeps the countdown invariant |
| Anagram.CountExceeded | exercises/easy/algorithm13.rs:32-39 | a character missing from the map, or whose count is already zero, proves the strings differ |
| Anagram.CountsFinal | exercises/easy/algorithm13.rs:43-43 | after all of the second string, every count is zero exactly when the two strings have the same characters |
| Anagram.CountDown | exercises/easy/algorithm13.rs:31-43 | the countdown answers true exactly when the two strings are permutations of each other |
| Anagram.AreAnagrams | exercises/easy/algorithm13.rs:17-46 | the answer is true exactly when the strings, with spaces dropped and letters lowercased, are permutations of each other. The check is symmetric |
| Anagram.PunctuationCounts | exercises/easy/algorithm13.rs:17-46 | punctuation is compared like any other character: `a,b` and `ab` are not anagrams |
| Anagram.ListenSilent | exercises/easy/algorithm13.rs:53-59 | "listen" and "silent" are anagrams |
| Anagram.ListenSilentCounts | exercises/easy/algorithm13.rs:53-59 | "listen" and "silent" have the same characters with the same counts |
| Anagram.HelloWorld | exercises/easy/algorithm13.rs:71-77 | "hello" and "world" are not anagrams |
| Anagram.HelloWorldCounts | exercises/easy/algorithm13.rs:71-77 | `h` occurs once in "hello" and never in "world" |
| CountDistinct.TokensBound | exercises/normal/solution1/src/count_distinct.rs:13-15 | there are no more distinct non-empty pieces than pieces |
| CountDistinct.NewCountDistinct | exercises/normal/solution1/src/count_distinct.rs:10-16 | the count is at most the number of commas plus one |
| CountDistinct.SplitChars | exercises/normal/solution1/src/count_distinct.rs:12-12 | every character of every piece comes from the input |
| CountDistinct.CountZero | exercises/normal/solution1/src/count_distinct.rs:10-16 | the count is zero exactly when the input holds nothing but commas, the empty string included |
| CountDistinct.JoinedCount | exercises/normal/solution1/src/count_distinct.rs:10-16 | joining comma-free pieces with commas and counting gives the number of distinct non-empty pieces |
| CountDistinct.ReorderRepeat | exercises/normal/solution1/src/count_distinct.rs:14-15 | reordering or repeating the pieces leaves the count unchanged |
| CountDistinct.NoTrimming | exercises/normal/solution1/src/count_distinct.rs:12-13 | pieces are compared exactly, without trimming: `a, a` counts 2 |
| Fibonacci.FibAtLeastIndex | exercises/normal/solution5/src/fibnacci.rs:18-20 | the n-th number of the sequence is at least n |
| Fibonacci.FibGrows | exercises/normal/solution5/src/fibnacci.rs:18-20 | from the second number on the sequence grows strictly, so the loop ends |
| Fibonacci.CountUpTo | exercises/normal/solution5/src/fibnacci.rs:11-11 | the result `k` is the first index whose number exceeds the threshold; all earlier numbers are within it |
| Fibonacci.OddFibonacciSum | exercises/normal/solution5/src/fibnacci.rs:1-24 | the sum is that of the odd numbers of 1, 1, 2, 3, 5, … up to the threshold, and 0 for a threshold of 0 |
| Fibonacci.OneCountedTwice | exercises/normal/solution5/src/fibnacci.rs:7-8 | the leading 1 is counted twice: threshold 1 gives 2 |
| Fibonacci.UpToTen | exercises/normal/solution5/src/fibnacci.rs:1-24 | threshold 10 gives 1 + 1 + 3 + 5 = 10 |
| Fibonacci.SumMonotone | exercises/normal/solution5/src/fibnacci.rs:1-24 | a higher threshold never gives a smaller sum |

## Left out

- `exercises/normal/solution3/src/calc_logic.rs` is not part of this model. It works on floating point.
- File and console I/O are not modelled. `parse_file` opening `district.json` and reading lines is
  modelled as a sequence of lines. I/O errors (`line.unwrap()`) and every `println!` are left out.
- The iteration order of a `HashMap` is unspecified in Rust. `Provinces.Enumerate` picks an
  arbitrary order with `:|`, and the per-batch facts hold for every order.
- Raw pointers, `unsafe` and memory release are not modelled. The list's nodes are Dafny heap
  objects. Both versions of `get` in `exercises/easy/algorithm2.rs` are modelled: the recursive one
  and the iterative one. The file repeats `reverse` in a second `impl` block with the same
  statements, with prose that is not Rust between the two; the repeated copy is not modelled
  separately.
- Panics are preconditions or `None`. Examples: an `unwrap` in `parse_date`, a city line before
  any batch header, a month outside 1..12 in `next_day`, and `365 - day_of_year` below zero.
- Fixed-width integers are unbounded here. This covers the `u32` of the calendar, coin table,
  converter base and Fibonacci sum, the `u64` of the converter and conjecture, the `i32` day
  count, and the `u128` of the prime factor search. The source can overflow where the model
  cannot. Examples: `a + b` in `odd_fibnacci_sum` for a threshold of 1836311903 or more,
  `result * base + digit` in `to_decimal` for long inputs, and `total_days_2025_base` far from 2025.
- `Fibonacci.OddFibonacciSum`: does not model the `u32` overflow of `a + b` for thresholds of 1836311903 or more.
- `Converter.ToDecimal`: does not model the `u64` overflow of `result * base + digit` for values above 2^64 - 1.
- Characters are Unicode code points, with only the ASCII behaviour modelled. `to_lowercase`,
  `to_uppercase` and `is_whitespace` are applied to ASCII characters only. Byte lengths
  (`len()` on UTF-8) are character counts.
- `(n as f64).sqrt().floor()` in `conjecture.rs` is replaced by the exact integer square root
  `Conjecture.FloorSqrt`. The floating-point result agrees with it for every number the search
  reaches (below 6000).
- `Conjecture.GoldbachConjecture`: states that the two results are the first two counterexamples
  and that the second is at most 5993. It does not compute their exact values (5777 and 5993).
- `PrimeFactor.FindMaxPrimeFactor`: does not claim the result is prime for `n` of (10^6+1)^2 or
  more. The source returns a cofactor above 10^12 without testing it, and such a cofactor can be
  composite.
- `Provinces.CountProvinces`: does not state that a batch's count is its number of connected
  components. Proved instead: the provinces partition the cities, and every city line ends up
  within one province. Together these bound the count by the number of components.
- The test `"Clint Eastwood"` / `"Old West Action"` and the tests `evil`/`vile` and
  `Astronomer`/`Moon starer` of `exercises/easy/algorithm13.rs` are not restated as lemmas. Their
  answers follow from `Anagram.AreAnagrams`.
