# OraDuck, modelled and verified in Dafny

OraDuck connects DuckDB to Oracle through OCI. Below the OCI calls it converts values between two type systems, cuts a
table into work units that threads read in parallel, turns DuckDB filters into Oracle conditions, and loads rows through
sessions shared by threads. This project models these parts and proves that they do what the rest of the program relies
on. `dafny verify dfyconfig.toml` checks all of it.

Code that works step by step in C++ is a method or a class here, with the same branches, bounds and constants, and is
proved against a definition that does not share its structure: a NUMBER means a rational number, a day number means a
date of the proleptic Gregorian calendar (section 3.2.1 of ISO 8601:2004), a text means its tokens or its parse, a
condition means a truth value. The main results are about those definitions.

* **Numbers.** `OracleNumber` says what NUMBER bytes mean and what scaling and rounding a value gives. `NumberDecoding`
  and `Accumulator` (decoders), `NumberEncoding` and `Limbs` (encoders), `NumberText` (the two printers) are the code.
  `NumberRoundTrip`, `NumberOrder`, `NumberReading`, `NumberPrinters` and `NumberBinds` relate them. `TypeMap` shows
  that no value of a column is lost under the type planned for it, and that no narrower one would do.
* **Dates.** `Calendar` has both conversions of the calendar, `OracleDate` the DATE and TIMESTAMP bytes, `DateTimes` the
  text form.
* **Parallel read.** `Rowid` and `RowidSlices` cut ROWID space into units. `Scan` is a state machine of threads: every
  access to shared state is one step, and a run is any sequence of steps. `FetchCursors` and `InlineColumns` are the
  fetch cursor with its LOB buffer. `ParallelRead` puts slices, statements, filters and threads together.
* **Filters.** `FilterValues` and `FilterSql` give filter trees, their meaning in DuckDB and their translation.
  `OracleColumns` says what a column can store, by the name that the dictionary gives its type, and what DuckDB reads of
  it; `OracleConditions` what a condition means in Oracle for stored rows, under three-valued logic with errors as a
  fourth value that is shown not to arise; `Charsets` gives the bytes by which Oracle compares texts. `FilterSoundness`
  proves that the two meanings agree, `FilterCoverage` which filters are translated, `FilterNumbering` how placeholders
  are numbered, `FilterBuilder` that the code builds exactly this translation. `SqlTokens`, `SqlConditions` and
  `SqlParser` read SQL text back. `ReadSql` puts the statement of a unit together, `StatementHead` and `UnitQueries`
  read it back: it returns the columns of the scan from its object as of its snapshot, for the rows of its unit that
  pass the filters, so that over all units of a plan each row is selected once. `SameFragments` and `Pushdown` show that
  the pushdown loop keeps the query, `ShownLiterals` that what EXPLAIN shows denotes what is bound.
* **Parallel load.** `Loader` is the direct path loader against an OCI that may answer anything, `WriterPool` the
  session pool as a state machine, `CopyFinalize` the commit of all sessions, and `CopyLoad` the whole load.
* **Names.** `DuckColumnNames` renames columns that differ only in case. `Machine`, `Digits` and `Numerals` hold integer
  widths, positional notation and numerals.

Oracle and OCI are steps of an environment with stated contracts: a fetch returns a non-empty prefix of the rows left
until the end; a LOB read (`LobReader`) returns any part of what was asked for, which may be nothing; the calls of a
direct path load (`DirectPath`) answer with success or with an error, convert at most the rows left, and only they
change what Oracle has accepted and committed; whole numbers that fit 64 bits are converted exactly to integers; a login
may fail; an object holds one content at each SCN. Times, randomness and the network do not appear.

Two results go beyond what the code needs or show a limit of it:

* The NUMBER encoder takes any 8-bit scale, but its exponent byte wraps for very small values at scales above 128.
  `NumberRoundTrip.RoundTripExactly` gives the exact condition, `NumberRoundTrip.TooSmall` an input. DECIMAL scales
  end at 38, where nothing is lost.
* `OracleDate.DecodeOracleDate` accepts dates whose second year byte is not in its canonical range, as long as the
  date exists. `OracleDate.DecodeThenEncode` says exactly which bytes are reproduced, `OracleDate.OtherSpelling`
  gives an input.

## Model

| member | source | states |
|---|---|---|
| Accumulator.Mul64 | src/oracle_decoding.cpp:141-148 | The two words are the exact product of any two 64-bit words. |
| Accumulator.Acc.MulAdd | src/oracle_decoding.cpp:156-188 | Fails exactly when multiplier times value plus addend needs more than 128 bits; otherwise the accumulator holds that number. The carry checks of both branches decide this. |
| Accumulator.Acc.Increment | src/oracle_decoding.cpp:189-195 | Fails exactly at 2^128 - 1; otherwise adds one. |
| NumberDecoding.DigitByte | src/oracle_decoding.cpp:109-117 | The wrapped byte arithmetic yields a digit 0..99 exactly for the mantissa bytes that stand for one, and then that digit, for both signs. |
| NumberDecoding.ParsedNumber.StreamDigit | src/oracle_decoding.cpp:41-45 | Reads the i-th decimal digit of the stream that the base-100 digits spell. |
| NumberDecoding.ParsedNumber.ChunkPairs | src/oracle_decoding.cpp:55-68 | Grouping four pairs at a time gives the same number as reading the base-100 digits one by one. |
| NumberDecoding.ParsedNumber.ChunkValue | src/oracle_decoding.cpp:46-74 | For any start parity and any length up to 18, the value is the plain decimal reading of those stream digits, below 10^length, and fits 64 bits. |
| NumberDecoding.LoadDigits | src/oracle_decoding.cpp:112-120 | Reports a malformed mantissa exactly when some byte stands for no digit; otherwise stores all digits. |
| NumberDecoding.TrimPairs | src/oracle_decoding.cpp:121-132 | Everything cut off is zero and what is left, if anything, starts and ends with a nonzero pair. |
| NumberDecoding.SignificantDigits | src/oracle_decoding.cpp:133-135 | The digits between the leading and trailing zeros carry the whole value of the mantissa. |
| NumberDecoding.PlacePoint | src/oracle_decoding.cpp:121-136 | The object then describes the sign, the digits and the decimal point of the mantissa at its exponent; an all-zero mantissa becomes a positive zero. |
| NumberDecoding.ParseNumber | src/oracle_decoding.cpp:81-136 | Against an independent definition of what NUMBER bytes mean: fails with the same error exactly on the byte strings without a meaning, and otherwise holds exactly the number they mean, infinities included. |
| OracleNumber.TrailingZeros | src/oracle_decoding.cpp:29-39 | Floor, exactness and rounding of a value do not depend on how it is split into mantissa and exponent. |
| OracleNumber.ScaledDigits | src/oracle_decoding.cpp:207-237 | Floor, whether a fraction is left, and rounding half away from zero, of 0.DIGITS * 10^keep, can be read off the digits before position keep and the one at it. |
| OracleNumber.ManyDigits | src/oracle_decoding.cpp:207-210 | A number of more than 40 integer digits needs more than 128 bits: the early overflow exit is right. |
| NumberDecoding.AddDigits | src/oracle_decoding.cpp:211-220 | The chunked fold succeeds exactly when the integer made of the digits is below 2^128, and then holds it. |
| NumberDecoding.AddZeros | src/oracle_decoding.cpp:221-228 | Appends zeros in steps of up to 18; fails exactly when the result reaches 2^128. |
| NumberDecoding.ScaledMagnitude | src/oracle_decoding.cpp:199-241 | For every parsed number and scale: infinity, else overflow when the floor reaches 2^128, else inexact when a fraction is left and rounding is off, else the value rounded half away from zero, or overflow when rounding reaches 2^128. |
| NumberDecoding.DecodeScaled64 | src/oracle_decoding.cpp:245-260 | For every byte string, scale and rounding mode, the outcome that exact arithmetic on the meaning of the bytes prescribes, with the asymmetric signed 64-bit range; malformed bytes give their error. |
| NumberDecoding.DecodeScaled128 | src/oracle_decoding.cpp:262-283 | The same for the signed 128-bit range, through two's complement halves. |
| Limbs.DivideBy10 | src/oracle_encoding.cpp:23-28 | One pass over four 32-bit limbs divides the number they hold by 10 exactly and leaves the remainder. |
| Limbs.SplitLimbs | src/oracle_encoding.cpp:19-20 | The four limbs hold the number that the two words hold. |
| Limbs.DecimalDigits64 | src/oracle_encoding.cpp:8-15 | Writes the decimal digits of the magnitude, least significant first and without leading zeros, at most 20. |
| Limbs.DecimalDigits128 | src/oracle_encoding.cpp:17-32 | The same for 128 bits by long division over the limbs, at most 39 digits. |
| NumberEncoding.AlignDigits | src/oracle_encoding.cpp:36-49 | Padding to a pair boundary multiplies the value by 10 for an odd scale and otherwise keeps it. |
| NumberEncoding.CombinePairs | src/oracle_encoding.cpp:50-54 | The base-100 digits have the value of the decimal digits. |
| NumberEncoding.TrimZeros | src/oracle_encoding.cpp:55-62 | What is left below the cut are the base-100 digits of the value; the lower cut is the first nonzero one. |
| NumberEncoding.WriteBytes | src/oracle_encoding.cpp:67-83 | Exponent byte, digits most significant first, and the terminator of a short negative mantissa, in at most 21 bytes. |
| NumberEncoding.EncodeFromDigits | src/oracle_encoding.cpp:35-84 | For any digits, sign and scale, the bytes of the normal form of the value (no leading, no trailing zero pair), nothing when it has more than 20 pairs. |
| NumberEncoding.EncodeNumber64 | src/oracle_encoding.cpp:93-101 | The 64-bit encoder writes that encoding of its magnitude, zero included. |
| NumberEncoding.EncodeNumber128 | src/oracle_encoding.cpp:103-111 | The 128-bit encoder writes that encoding of its magnitude, zero included. |
| NumberRoundTrip.TwentyPairs | src/oracle_encoding.cpp:63-66 | After alignment a 128-bit magnitude has at most 20 base-100 digits at any scale: the refusal cannot happen. |
| NumberRoundTrip.ExponentBound | src/oracle_encoding.cpp:67-75 | The exponent byte stays on the side of its sign for every scale up to 128. |
| NumberRoundTrip.EncodingMeans | src/oracle_encoding.cpp:35-84 | While the exponent fits its byte, the encoding parses, has the sign of the value, and decodes at every scale and rounding mode as magnitude * 10^-scale does. |
| NumberRoundTrip.RoundTrip | src/chunk_writer.cpp:101-125 | Every signed 128-bit value at every scale up to 128 (DECIMAL allows 38) encodes to 1 to 21 bytes that decode at that scale, without rounding, to the value; through the 64-bit decoder too whenever it fits. |
| NumberRoundTrip.RoundTripExactly | src/oracle_encoding.cpp:67-75 | Beyond that, for every scale of the parameter type, the round trip holds if and only if the value is zero or large enough for the exponent byte not to wrap, with separate bounds for the two signs. |
| NumberRoundTrip.TooSmall | src/oracle_encoding.cpp:67-75 | An input for that: 10^-200 and its negative, given as 1 and -1 at scale 200, do not come back. |
| NumberOrder.EncodingOrder | src/oracle_encoding.cpp:35-84 | Byte-lexicographic order of two encodings is the numeric order of the values, across signs, scales, lengths and the terminator 102. |
| NumberOrder.EncodingCanonical | src/oracle_encoding.cpp:35-84 | Two encodings are byte-equal if and only if the values are equal, whatever scales they were given in. |
| NumberText.NumeralText | src/oracle_decoding.cpp:294-316 | Sign, digits, zeros and point of the plain numeral, for a point before, inside and behind the digits. |
| NumberText.DigitText | src/oracle_decoding.cpp:299-303 | The characters of exactly the significant digits asked for. |
| NumberText.DecodeText | src/oracle_decoding.cpp:285-317 | The canonical text of what the bytes mean, or the parse error. |
| NumberReading.TextIsCanonical | src/oracle_decoding.cpp:296-316 | The text has no superfluous leading zero, no trailing fractional zero, no empty fraction and no negative zero. |
| NumberReading.TextIsExact | src/oracle_decoding.cpp:285-317 | Reading the text back gives the sign and exactly the value, for any precision. |
| NumberReading.SameTextSameValue | src/oracle_decoding.cpp:285-317 | Two finite NUMBERs have the same text if and only if they have the same sign and value. |
| NumberText.LimbDigits | src/sql_binds.cpp:16-27 | Collects the decimal digits of the 128-bit magnitude by dividing the limbs. |
| NumberText.WriteReversed | src/sql_binds.cpp:31-40 | Writes the digits in order with the point before the last scale of them. |
| NumberText.DecimalText | src/sql_binds.cpp:14-42 | All digits of the magnitude, at least one before the point, exactly scale behind it. |
| NumberReading.LiteralReads | src/sql_binds.cpp:14-42 | The literal reads back as its sign, unscaled magnitude and scale. |
| NumberReading.LiteralInjective | src/sql_binds.cpp:14-42 | Equal literals come from equal magnitude, sign and scale. |
| NumberPrinters.TrimmedLiteral | src/sql_binds.cpp:14-42 | A literal without its trailing fractional zeros (and a bare point) is the canonical text of its value. |
| NumberPrinters.TextOfEncoding | src/oracle_decoding.cpp:285-317 | The text of an encoding is the text of the encoded value. |
| NumberPrinters.PrintersAgree | src/oracle_decoding.cpp:285-317 | The two printers agree: decoding an encoded decimal to text gives the trimmed literal. |
| NumberBinds.Magnitude64 | src/sql_binds.cpp:60-61 | The wrapped unsigned negation is the absolute value, the least 64-bit integer included. |
| NumberBinds.MagnitudeOf | src/sql_binds.cpp:66-71 | Negating the halves with carry gives the absolute value, the least 128-bit integer included. |
| NumberBinds.Bind | src/sql_binds.cpp:44-55 | Bytes are the encoding and the display is the literal of the same decimal. |
| NumberBinds.BindNumber | src/sql_binds.cpp:59-63 | A 64-bit integer is bound with its sign and absolute value at scale 0. |
| NumberBinds.BindDecimal | src/sql_binds.cpp:65-73 | A decimal is bound with its sign, absolute value and own scale. |
| NumberBinds.BindIsExact | src/sql_binds.cpp:44-73 | A bound decimal decodes to the value it was made from, its display reads as that value, and the text of its bytes is the trimmed display. |
| NumberBinds.SameDisplaySameBind | src/sql_binds.cpp:44-55 | Two NUMBER binds show the same literal if and only if they have the same value and scale. |
| NumberBinds.WriteHugeintNumber | src/chunk_writer.cpp:101-125 | Every row gets NULL or the encoding of its value in its own slot of the scratch buffer; later rows do not disturb earlier ones and nothing else is written. |
| NumberBinds.EncodeNotEmpty | src/chunk_writer.cpp:119-122 | The error for a value too large for NUMBER cannot occur for a 128-bit value, at any scale. |
| NumberBinds.ColumnRoundTrip | src/chunk_writer.cpp:101-125 | Every cell written for a column decodes to the value of its row. |
| Calendar.EraIsFloor | src/oracle_encoding.cpp:125 | The adjustment before the truncating division makes it a floor division, negative day numbers and years included. |
| Calendar.YearOfDay | src/oracle_encoding.cpp:127 | The year formula finds, for each of the 146097 days of an era, the year that the day lies in. |
| Calendar.YearLength | src/oracle_encoding.cpp:127-128 | The March-based years of an era have the lengths that the Gregorian leap year rule gives. |
| Calendar.MonthOfDay | src/oracle_encoding.cpp:129-130 | The month formula finds the month that the day of the year lies in. |
| Calendar.DaysOfCivil | src/oracle_encoding.cpp:123-133 | For every day number the date exists, and converting it back gives the day number. |
| Calendar.CivilOfDays | src/oracle_decoding.cpp:320-327 | For any month 1..12 and day of at least 1, converting to a day number and back gives the same date if and only if the date exists. |
| Calendar.DaysOfNext | src/oracle_decoding.cpp:320-327 | The Gregorian successor of an existing date exists and has the next day number. |
| Calendar.CivilOfNext | src/oracle_encoding.cpp:123-133 | The date of the next day number is the Gregorian successor under the leap year rule, in every era. |
| Calendar.Epoch | src/oracle_encoding.cpp:124 | The day count starts at 1 January 1970: day 0 is that date, and that date is day 0. |
| Calendar.DaysInOrder | src/oracle_decoding.cpp:320-327 | Existing dates are ordered as their day numbers. |
| Calendar.FourDigitYears | src/oracle_encoding.cpp:139 | A day lies in the years 1 to 9999 if and only if its number is in -719162..2932896. |
| OracleDate.SplitMicros | src/oracle_encoding.cpp:113-120 | The corrected truncating division is floor division and modulus for every instant, before 1970 too. |
| OracleDate.EncodeOracleDate | src/oracle_encoding.cpp:135-151 | Writes the seven field bytes for years 1 to 9999, else fails and writes nothing. |
| OracleDate.EncodeOracleTimestamp | src/oracle_encoding.cpp:153-166 | Writes the canonical form: seven bytes without a fraction, else eleven. |
| OracleDate.EncodedDates | src/oracle_encoding.cpp:139-165 | Which day numbers are refused, and the length of every encoding. |
| OracleDate.DecodeOracleDate | src/oracle_decoding.cpp:329-351 | Accepts exactly the bytes whose year, month, day and time exist (month lengths and leap years, no year 0, BC years shifted): the check by converting back is the month-length rule. |
| OracleDate.DecodeOracleTimestamp | src/oracle_decoding.cpp:353-371 | Accepts exactly 7 or 11 bytes of an existing instant with less than a second of nanoseconds, truncated to microseconds. |
| OracleDate.TimestampRoundTrip | src/oracle_encoding.cpp:153-166 | Every microsecond of the years 1 to 9999 decodes from its encoding unchanged; it takes 7 bytes if and only if it has no fraction. |
| OracleDate.DateRoundTrip | src/oracle_encoding.cpp:135-151 | A DATE read back has lost the fraction of a second and nothing else. |
| OracleDate.DecodeThenEncode | src/oracle_decoding.cpp:329-351 | The bytes of an existing date after Christ are re-encoded to themselves if and only if the second year byte is in its canonical range. |
| OracleDate.OtherSpelling | src/oracle_decoding.cpp:329-334 | An input for that: the bytes 121, 90 for the year 2090 are accepted and not reproduced. |
| DateTimes.FormatDateTimeText | src/oracle_encoding.cpp:168-194 | Fills in the 26 characters of the instant for the years 1 to 9999, else fails and writes nothing. |
| DateTimes.DateTimeRoundTrip | src/oracle_encoding.cpp:168-194 | The text of every microsecond of those years reads back as the instant. |
| DateTimes.Put2 | src/oracle_encoding.cpp:86-89 | Writes the two digits of a number below 100 at its place and leaves what is before them. |
| DateTimes.WriteDate | src/oracle_encoding.cpp:177-182 | Year, month and day with their separators, in front. |
| DateTimes.WriteTime | src/oracle_encoding.cpp:184-192 | Time of day with its separators and microseconds behind the date, which stays. |
| Rowid.AppendBase64 | src/rowid_ranges.cpp:10-15 | Appends the last digits of the value in base 64, most significant first, in the alphabet of section 4 of RFC 4648. |
| Rowid.EncodeRowid | src/rowid_ranges.cpp:24-37 | The four fields in 6, 3, 6 and 3 digits; of a bigfile's block number, the file field has what is above its last 22 bits and the block field those. |
| Rowid.PositionOfRowid | src/rowid_ranges.cpp:24-37 | Every field that fits its digits keeps its full value. |
| Rowid.RowidOrder | src/rowid_ranges.cpp:24-37 | ROWIDs are ordered, digit by digit, as object, file, block and row, and no two share a text. |
| RowidSlices.SortExtentsSorted | src/rowid_ranges.cpp:54-56 | The extents end up in order of file and block. |
| RowidSlices.BlocksInOrder | src/rowid_ranges.cpp:54-56 | Blocks of disjoint sorted extents have strictly increasing ROWIDs, in one bigfile or across smallfiles. |
| RowidSlices.GroupByObject | src/rowid_ranges.cpp:46-49 | Every object listed gets all of its extents, in order, and no other object appears. |
| RowidSlices.CutObject | src/rowid_ranges.cpp:57-85 | The units of an object are a chain without gap or overlap from its first ROWID to the next object (or to the inclusive last ROWID); all but the last have exactly the target size, and together they have all blocks. |
| RowidSlices.ChainReaders | src/rowid_ranges.cpp:57-85 | Such a chain reads every row of the object exactly once and no row of another object. |
| RowidSlices.CutObjects | src/rowid_ranges.cpp:51-86 | Over all objects: each row of a listed object is in one unit, no other row in any, all blocks are assigned and no unit exceeds the target. |
| RowidSlices.LargestFirstIsStable | src/rowid_ranges.cpp:87 | The final sort is descending and keeps the order of units of the same size. |
| RowidSlices.ReadersOfPermutation | src/rowid_ranges.cpp:87 | Reordering units does not change how many of them hold a row. |
| RowidSlices.BuildRowidSlices | src/rowid_ranges.cpp:44-94 | Every ROWID of a listed object is in exactly one slice, no other ROWID is in any, object 0xFFFFFFFF included; slices come largest first, cover all blocks and respect the target. |
| Scan.InitInv | src/oraduck_scan.cpp:203-205 | Before the first step every row is untaken and the planning session is the only one. |
| Scan.TurnHeld | src/oraduck_scan.cpp:246-321 | For each row: emitted, held by the thread (chunk, batch, cursor, claimed unit) and untaken add up to the same after any step of any thread. |
| Scan.TurnSessions | src/oraduck_scan.cpp:234-244 | A session changes hands only from the spare to one thread or from a new login. |
| Scan.StepInv | src/oraduck_scan.cpp:246-321 | Conservation of every row, the bounds of batches and chunks, and distinct sessions are kept by every step, whatever a fetch returns. |
| Scan.RunInv | src/oraduck_scan.cpp:107-134 | These hold in every state of every interleaving of any number of threads. |
| Scan.ExactlyOnce | src/oraduck_scan.cpp:246-321 | At any moment no row has been emitted twice and no foreign row at all; when all threads have ended, each row of each unit was emitted exactly once. A cursor run for a new unit yields none of the old unit's rows. |
| Scan.EmptyChunk | src/oraduck_scan.cpp:262-268 | A thread returns an empty chunk only after all units are taken, and it then holds no row and no session. |
| Scan.SessionsNotShared | src/oraduck_scan.cpp:232-244 | No session, and in particular not the spare one, is with two threads. |
| Scan.StepWork | src/oraduck_scan.cpp:246-321 | Every step decreases a measure of the rows and units left, whichever thread moves. |
| Scan.RunsEnd | src/oraduck_scan.cpp:246-321 | No schedule is longer than that measure at its start. |
| Scan.NotStuck | src/oraduck_scan.cpp:287-321 | Until all threads have ended some thread can go on. |
| FetchCursors.RowsWithin | src/fetch_cursor.cpp:51-54 | At least one row and at most the maximum; either one row or within the budget; never fewer than fit. |
| FetchCursors.FetchCursor.constructor | src/fetch_cursor.cpp:32-74 | Bytes per row are those of the columns, of the LOB locators and at least 1; the first request, with a whole prefetch per LOB, and the batch size are one row or within the budget; a LOB character takes 4 bytes at most, a BLOB byte one; without columns a counter is fetched. |
| FetchCursors.FetchCursor.Execute | src/fetch_cursor.cpp:112-131 | A re-run cursor has nothing left of the previous run; any other statement, or another number of binds, is refused and changes nothing. |
| FetchCursors.FetchCursor.ReserveLob | src/fetch_cursor.cpp:289-301 | Afterwards there is room; the content is unchanged although the buffer may have moved; the capacity is kept or at least doubled. |
| FetchCursors.FetchCursor.ReadPieces | src/fetch_cursor.cpp:262-280 | Whatever pieces OCI returns, all bytes of the value end up behind those already there, never beyond the capacity; an unexpected read is reported if and only if OCI answered a read without progress. Terminates. |
| FetchCursors.FetchCursor.ReadLob | src/fetch_cursor.cpp:245-287 | Appends exactly the value and notes its place; other places stay. The only errors are a read without progress, and otherwise a value of more than 4 GiB, which is always reported. |
| FetchCursors.FetchCursor.ReadColumn | src/fetch_cursor.cpp:233-241 | After a column its values follow those of the columns before it, each at its noted place, unless OCI made no progress or a value is too large. |
| FetchCursors.FetchCursor.StartBatch | src/fetch_cursor.cpp:224-231 | A new batch starts with an empty buffer of at most twice the budget or the initial size; a smaller buffer is kept. |
| FetchCursors.FetchCursor.ReadLobs | src/fetch_cursor.cpp:224-242 | After a batch the buffer holds all values and nothing else, also when an oversized buffer was given back first; it fails exactly for a read without progress or a value of more than 4 GiB. |
| FetchCursors.FetchCursor.Fetch | src/fetch_cursor.cpp:184-206 | A batch with a value that was cut or not converted is refused, with the code of the first one; any other batch is refused exactly if OCI made no progress in a LOB or a value is of more than 4 GiB, and otherwise every row of every column, LOB or not, can be read back exactly, NULL as NULL; the next request is one row or as many as fit the budget at the observed LOB bytes per row; after the end nothing changes any more. |
| InlineColumns.Buffers.CheckValues | src/fetch_cursor.cpp:208-222 | Reports a value exactly when some value of the batch was cut or not converted, and then the code of the first one in column order, ORA-01406 when OCI gives none. |
| InlineColumns.Buffers.HeldIsDelivered | src/include/oraduck/fetch_cursor.hpp:62-74 | What OCI wrote for a row is what a reader of the row gets, NULL for its indicator. |
| FetchCursors.FetchCursor.FetchRows | src/fetch_cursor.cpp:188-198 | After OCI has filled the arrays, the indicators and the check say which rows are NULL and whether all values are good. |
| FetchCursors.FetchCursor.PlacedDelivers | src/fetch_cursor.cpp:284-286 | Values that lie where they were noted are what a reader of the row gets. |
| FetchCursors.ArenaSlice | src/include/oraduck/fetch_cursor.hpp:60-73 | In the finished buffer each value is at the offset noted when it was read, although later ones may have moved the buffer. |
| FetchCursors.PlacesApart | src/fetch_cursor.cpp:284-286 | The places of any two values are disjoint. |
| TypeMap.PlanIsLossless | src/read_types.cpp:75-121 | Every value that NUMBER(p,s) can hold is read under its plan without overflow, inexactness or a failed width check, for the three integer types (as OCI converts them, and from NUMBER bytes) and both decimal widths, negative scales and s > p; DOUBLE is planned only when no DECIMAL is wide enough. |
| TypeMap.PlanIsNarrowest | src/read_types.cpp:75-121 | No DECIMAL of fewer digits or of a smaller scale, and no smaller integer type, holds the greatest value of the column; a column planned as DOUBLE no DECIMAL of 38 digits holds. |
| OracleColumns.NumberIsRead | src/read_types.cpp:75-121 | A stored NUMBER of a column with precision or scale that is not read as DOUBLE is read as a number equal to it. |
| TypeMap.ReadsExactly | src/scan_vectors.cpp:88-118 | A value of at most width digits with nothing behind its scale passes decoder and width check unchanged, in 64 bits up to width 18. |
| TypeMap.UnconstrainedRounds | src/scan_vectors.cpp:88-118 | Under a user-given DECIMAL every finite value is rounded half away from zero, or refused exactly when the rounded value has too many digits. |
| Loader.DirectPathLoader.LoadStream | src/direct_path_loader.cpp:172-189 | The outcome names the call that Oracle answered with an error and is success exactly if there was none; success has sent the stream and emptied it; a rejected stream changes nothing; when the reset after an accepted stream fails, Oracle has its rows and they still count as not sent. |
| Loader.DirectPathLoader.ConvertRows | src/direct_path_loader.cpp:128-166 | Terminates against any OCI answers: every answer converts a row or uses up one of the 4096 streams allowed without progress, and a row is called too wide exactly when more were answered. |
| Loader.DirectPathLoader.ConvertAndLoad | src/direct_path_loader.cpp:128-170 | On success exactly the given rows were added, in order and once; on failure a prefix of them. The outcome names the call answered with an error; without one it is success or a row too wide. |
| Loader.DirectPathLoader.Finish | src/direct_path_loader.cpp:195-203 | Succeeds if and only if Oracle answered no call with an error, and names that call otherwise; a finished load has sent everything and committed what Oracle accepted, which is all rows once unless a reset had failed before; a failed one has committed nothing; finishing again is refused and changes nothing. |
| Loader.DirectPathLoader.Release | src/direct_path_loader.cpp:209-230 | Aborts exactly when asked to with a load still open, and then leaves it closed. |
| Loader.DirectPathLoader.Abort | src/direct_path_loader.cpp:205-207 | Afterwards, and so after destruction, the load has been finished or aborted, exactly once; abort never follows a successful finish. |
| Loader.WriteChunk | src/oraduck_copy.cpp:169-184 | A chunk is loaded completely, in order and once, in pieces of the column array's capacity; a failure leaves a prefix, and the outcome tells what Oracle answered. |
| WriterPool.StepPool | src/oraduck_copy.cpp:149-167 | Idle sessions are open and listed once, and no session is with a thread and idle, or with two threads, after any step. |
| WriterPool.StepSessions | src/oraduck_copy.cpp:149-167 | Opened sessions stay accounted for: idle, with a thread, or lost with a failed batch. |
| WriterPool.RunInv | src/oraduck_copy.cpp:149-202 | Both, and the conservation of every row, hold in every interleaving, whichever logins and loads fail. |
| WriterPool.WritersNotShared | src/oraduck_copy.cpp:149-167 | In every interleaving no session is held by two threads or held and idle. |
| WriterPool.SessionsBounded | src/oraduck_copy.cpp:51-58 | Never more sessions than the peak number of batches in progress plus the failed batches. |
| WriterPool.PreparedRows | src/oraduck_copy.cpp:187-202 | When all batches have been prepared every row was given to exactly one session, once. |
| CopyFinalize.Verdict | src/oraduck_copy.cpp:225-243 | Success, nothing loaded or partial with its counts, exactly by the number of reported errors; the error shown is the first one. |
| CopyFinalize.FinishAll | src/oraduck_copy.cpp:214-224 | In whatever order the threads run, every session is finished once, and it reports no error exactly when Oracle answered none of its calls with one, which is when it has finished; it has then committed all its rows once if its streams had been reset. |
| CopyFinalize.DestroyAll | src/oraduck_copy.cpp:235 | Sessions that did not commit are aborted; committed ones stay committed. |
| CopyFinalize.Finalize | src/oraduck_copy.cpp:208-244 | Returns normally if and only if Oracle answered no call with an error, which is when every session finished, having committed each of its rows once where all its streams were reset; says that no data was loaded if and only if none committed; all others, among them any whose last stream cannot be reset, were aborted. |
| CopyLoad.LoadSome | src/oraduck_copy.cpp:169-183 | Loading rows of a batch on the loader of a session is the step of the pool, also when it fails after some of them; it fails exactly if Oracle answers a call with an error or a row is too wide. |
| CopyLoad.Step | src/oraduck_copy.cpp:149-202 | Every step of a thread on the pool is a step on the loaders; until a batch has failed every call has succeeded and all streams were reset. |
| CopyLoad.Load | src/oraduck_copy.cpp:149-244 | Under any scheduler and any failures of Oracle: a load whose batches were all prepared reports success if and only if no call was answered with an error, and has then committed every row of every batch exactly once; one that says that no data was loaded has aborted every session, and so has one that gives up because a batch was not prepared. |
| CopyFinalize.LoadIsComplete | src/oraduck_copy.cpp:187-244 | After a load whose batches were all prepared and whose sessions all committed, every row of every batch is committed exactly once. |
| DuckColumnNames.CandidatesDiffer | src/oraduck_scan.cpp:479-481 | Different suffixes give different names, whatever the case. |
| DuckColumnNames.FreeName | src/oraduck_scan.cpp:479-488 | The search ends (finitely many names are taken) with the first suffix whose name is free. |
| DuckColumnNames.ColumnNames | src/oraduck_scan.cpp:465-491 | One name per column, pairwise different ignoring case; a column is renamed if and only if an earlier one has the same lower-case name, and then to its name with an underscore and a number that no Oracle column has as its name. |
| SqlTokens.ReadNumber | src/read_sql.cpp:35-40 | Reads the whole run of digits of a placeholder as its number. |
| SqlTokens.ShiftPlaceholders | src/read_sql.cpp:20-48 | The loop rewrites the token sequence of the text: placeholders outside quotes get the offset, everything else is copied. |
| SqlTokens.ScanOfShift | src/read_sql.cpp:20-48 | Read again, the shifted text has the same tokens with only the placeholder numbers changed: no placeholder appears, disappears or changes inside quotes. |
| SqlTokens.EndQuoteOfShift | src/read_sql.cpp:20-48 | Shifting does not change whether the text ends inside quotes. |
| SqlTokens.ShiftTwice | src/read_sql.cpp:20-48 | Shifts add up. |
| SqlConditions.ShiftedText | src/read_sql.cpp:20-48 | On the text of a condition shifting moves exactly the bind numbers, and the placeholders of the text are its bind numbers in order. |
| SqlParser.TextParses | src/filter_sql.cpp:195-312 | The text of every condition that the translation can build reads back as that condition, by a grammar that has its own keywords: AND and OR, operators, IN lists, ranges and timestamps. |
| SqlParser.TextInjective | src/filter_sql.cpp:195-312 | Two conditions never share a text. |
| FilterValues.BoundNumber | src/sql_binds.cpp:44-55 | The number that a decimal is bound as compares as the decimal itself. |
| FilterSoundness.KindStored | src/filter_sql.cpp:52-79 | What DuckDB reads in a column of a kind that comparisons are pushed for is what is stored: exact numbers, instants of whole microseconds without a zone, texts and doubles, told by what each type name of the dictionary can store. |
| FilterSoundness.TimestampStored | src/filter_sql.cpp:62-71 | A TIMESTAMP that comparisons are pushed for has no zone and stores nothing below a microsecond. |
| FilterSoundness.OperandSound | src/filter_sql.cpp:109-173 | For every column kind a pushed constant is received so that it compares with every value of the column as it does in DuckDB, and a pushed text meets the guard of the code. |
| Charsets.Utf8Order | src/filter_sql.cpp:81-86 | The bytes of two texts in UTF-8 are in the order of their code points: in AL32UTF8 Oracle orders texts as DuckDB does. |
| Charsets.SameBytes | src/filter_sql.cpp:163-166 | Two texts have equal bytes if and only if they are equal: in UTF-8, CESU-8 and UTF-16, and in any character set based on ASCII when the bound text is ASCII. |
| Charsets.OtherOrder | src/filter_sql.cpp:85 | In CESU-8 and UTF-16 the order is another one: U+FFFD comes behind U+10000. |
| FilterSoundness.TextsSound | src/filter_sql.cpp:155-169 | The guard of the code implies that Oracle, which compares bytes in the character set of the column, gives the truth value of comparing code points: ranges in AL32UTF8, equality and IN in every character set. |
| FilterSoundness.RangesDiffer | src/filter_sql.cpp:160-162 | Without the guard on ranges two texts would compare differently, in every other Unicode character set. |
| FilterSoundness.StoredSound | src/filter_sql.cpp:109-173 | Oracle compares what is stored, instants to the nanosecond, with a bound constant as DuckDB compares what it has read. |
| FilterSoundness.CompareSound | src/filter_sql.cpp:302-311 | A comparison of a stored value with a bound constant has DuckDB's truth value for the value read, unknown for NULL. |
| FilterSoundness.DayRangeSound | src/filter_sql.cpp:243-259 | CAST(column AS DATE) = d equals the half-open range from d to the next day on every stored instant, without an error at the end of the calendar. |
| FilterSoundness.InListSound | src/filter_sql.cpp:260-278 | An IN list of bound constants is membership in DuckDB, unknown for NULL. |
| FilterSoundness.TranslationSound | src/filter_sql.cpp:195-335 | Whenever a filter tree is translated, the condition with its binds has in Oracle, for what any row stores, the truth value that the tree has in DuckDB for what it reads of the row, NULLs and nested AND/OR included, and is never an error. |
| FilterCoverage.OperandCovered | src/filter_sql.cpp:52-173 | A constant is bound exactly if the column, by the name of its type, holds values that Oracle compares with it as DuckDB does. |
| FilterCoverage.TranslatedIfCovered | src/filter_sql.cpp:195-335 | A filter tree is translated if and only if every column test in it is of a known type, and every comparison, list and day is of such a column with such constants. |
| FilterNumbering.TranslationNumbers | src/filter_sql.cpp:88-98 | Placeholders are numbered in the order of the text, one for each bind, without gaps. |
| FilterNumbering.TranslationShift | src/filter_sql.cpp:88-98 | Translating after k binds gives the same condition with all bind numbers moved by k, and the same binds. |
| FilterNumbering.TranslationWellFormed | src/filter_sql.cpp:195-312 | Translated filters are conditions of the readable form. |
| FilterBuilder.StringLiteral | src/sql_binds.cpp:75-85 | Writes the text in quotes with the quotes in it doubled. |
| FilterBuilder.BindDate | src/sql_binds.cpp:113-131 | Bytes and literal of a DATE bind, or refusal outside the years 1 to 9999. |
| FilterBuilder.Builder.AddBind | src/filter_sql.cpp:92-98 | The placeholder written is the number of the bind appended. |
| FilterBuilder.MakeInstantText | src/filter_sql.cpp:144-151 | The 26 characters of an instant with a four-digit year, none for others. |
| FilterBuilder.Builder.MakeBind | src/filter_sql.cpp:109-173 | What is bound for a constant on a column of each kind, or that it cannot be pushed. |
| FilterBuilder.Builder.Operand | src/filter_sql.cpp:109-173 | Writes the operand and its literal and appends one bind, or appends nothing. |
| FilterBuilder.Builder.InOperands | src/filter_sql.cpp:264-274 | Operands, literals and binds of the whole list, or failure when one constant cannot be pushed. |
| FilterBuilder.Builder.NullTestLeaf | src/filter_sql.cpp:233-239 | NULL tests are written for every column but those of unknown type, without a bind. |
| FilterBuilder.Builder.CompareLeaf | src/filter_sql.cpp:279-311 | Text, shown text and bind of a comparison with one constant. |
| FilterBuilder.Builder.InLeaf | src/filter_sql.cpp:260-278 | Text, shown text and binds of a list of 1 to 1000 constants. |
| FilterBuilder.Builder.DateEqLeaf | src/filter_sql.cpp:243-259 | Both ends of the range with a bind each, refused from 9999-12-31 on. |
| FilterBuilder.Builder.Leaf | src/filter_sql.cpp:226-312 | SQL text, shown text and binds of the translated condition on one column. |
| FilterBuilder.Builder.Node | src/filter_sql.cpp:195-224 | SQL text, shown text and binds of the translated tree, or failure exactly when some part cannot be translated. |
| FilterBuilder.TranslateFilter | src/filter_sql.cpp:321-335 | The fragment of the translation that is proved to keep the meaning, or none. |
| SameFragments.StringLiteralInjective | src/sql_binds.cpp:75-85 | Equal string literals come from equal texts. |
| SameFragments.LiteralEndOf | src/sql_binds.cpp:44-142 | Where a literal ends can be told from its characters alone, quotes in it included. |
| SameFragments.SameLiteral | src/sql_binds.cpp:44-142 | Equal literals of number, date, timestamp, text and double binds come from equal binds. |
| SameFragments.SameFragmentSameBinds | src/oraduck_scan_filters.cpp:323-325 | Two filters with the same SQL text and the same shown text have the same binds and the same translation. |
| ShownLiterals.ShownMeans | src/filter_sql.cpp:109-173 | What EXPLAIN shows for an operand, read as an Oracle literal of number, date, timestamp, text or double, denotes the constant of the filter. |
| Pushdown.FlipSound | src/oraduck_scan_filters.cpp:151-165 | Swapping the sides of a comparison with the flipped operator keeps its truth value for every pair of values and NULLs. |
| Pushdown.ConvertSound | src/oraduck_scan_filters.cpp:167-321 | Comparisons on either side, BETWEEN, casts to DATE, IN, NULL tests and conjunctions become filter trees of the same truth value. |
| FilterCoverage.ConvertedIfRecognised | src/oraduck_scan_filters.cpp:167-321 | An expression becomes a filter tree if and only if it compares bare columns with constants, in either order, or a column cast to DATE with a date, or is a BETWEEN, IN list or NULL test of a bare column, or AND and OR of these. |
| FilterCoverage.PushedIfCovered | src/oraduck_scan_filters.cpp:348-372 | Exactly the expressions of these forms go to Oracle whose columns and constants can be compared alike there. |
| Pushdown.FragmentSound | src/oraduck_scan_filters.cpp:348-372 | Oracle finds a fragment true for a stored row if and only if DuckDB finds the expression that it came from true for what it reads of the row. |
| Pushdown.KnownAlready | src/oraduck_scan_filters.cpp:360-367 | A fragment that looks like a known one is that one: dropping it loses nothing. |
| Pushdown.ScanBind.PushdownComplexFilter | src/oraduck_scan_filters.cpp:348-372 | Pushed and remaining filters together select the same rows before and after; the remaining ones are, in order, exactly those that cannot be pushed, despite erasure during the loop; known fragments stay and none is added twice. |
| ReadSql.BuildHead | src/read_sql.cpp:91-103 | Select list, table and snapshot, with the bind of the snapshot if there is one. |
| ReadSql.AddSlice | src/read_sql.cpp:112-135 | The condition of the slice with the numbers of its two binds, none for the whole table. |
| ReadSql.AddFilters | src/read_sql.cpp:106-111 | Each filter's text is moved on by the binds before it, and its binds are appended. |
| ReadSql.BuildScanSql | src/read_sql.cpp:87-140 | Text and binds of the statement for any columns, snapshot, filters and slice. |
| StatementHead.HeadReads | src/read_sql.cpp:91-103 | Read by a grammar of its own, the text of the statement selects the columns of the scan in their order from the object of the scan; it has an AS OF clause if and only if the scan has a snapshot, and the bind of the number in it is that snapshot; behind it is the WHERE clause. |
| StatementHead.SelectedIsRead | src/read_types.cpp:176-189 | The expression by which a column of each type is selected returns what DuckDB is to read of it: an instant with a zone in UTC, not in its zone. |
| StatementHead.StatementReturns | src/read_sql.cpp:91-98 | Column i of the select list of every unit's statement returns, for any stored row, what DuckDB is to read of the i-th projected column. |
| ReadSql.StatementNumbered | src/read_sql.cpp:87-140 | Outside quotes the placeholders are :b1, :b2, ... in the order of the text, one for each bind, and the text ends outside quotes. |
| ReadSql.FragmentParses | src/read_sql.cpp:106-111 | A fragment moved on by k reads as the filter translated after k binds. |
| ReadSql.FilterInStatement | src/read_sql.cpp:106-111 | In the statement of any unit the condition of each filter, evaluated with the binds of the whole statement, has the filter's truth value for every row. |
| ReadSql.TranslatedFits | src/read_sql.cpp:87-111 | Translated filters are numbered from :b1 without gaps, as the statement expects them. |
| UnitQueries.SliceReads | src/read_sql.cpp:112-135 | The text of a slice condition reads back as its kind and the numbers of its two binds. |
| UnitQueries.SliceSound | src/read_sql.cpp:112-135 | With the binds of the statement the condition holds exactly for the ROWIDs of the slice (lower bound first, inclusive end only where the slice says so), or for the hash bucket. |
| UnitQueries.WhereReads | src/read_sql.cpp:105-138 | The WHERE clause reads back as the conditions of all filters and of the slice, joined by AND. |
| UnitQueries.StatementSelects | src/read_sql.cpp:87-140 | For any filters and slice, the text of the statement with its binds, read from its first character on, selects a row if and only if every filter tree is true for it and it lies in the slice. |
| UnitQueries.EveryRowOnce | src/oraduck_scan.cpp:246-285 | Over a plan that holds each ROWID of the listed objects once, as BuildRowidSlices gives it, exactly one unit's statement selects each such row that passes all filters, and none selects any other row. |
| ParallelRead.SameContent | src/oraduck_scan.cpp:209-217 | The statement of every unit reads the same content of the object: that of the snapshot, whenever it starts. |
| ParallelRead.EmittedAsSelected | src/oraduck_scan.cpp:246-321 | In every interleaving, a stored row has been handed out at most as often as the statements of the units select it, and exactly as often when all threads have ended. |
| ParallelRead.EachRowDelivered | src/oraduck_scan.cpp:246-321 | For slices as BuildRowidSlices gives them and filters as TranslateFilter gives them, any finished scan has handed out each row that the object holds in the snapshot, in the listed objects and passing all filters, exactly once and no other row; an unfinished one none twice. Without a snapshot this needs an object that does not change between the starts of the units. |
| ParallelRead.EachRowDeliveredByHash | src/oraduck_scan.cpp:246-321 | The same for hash slices. |
| UnitQueries.EveryRowInOneBucket | src/work_units.cpp:356-364 | The same for hash slices, whatever hash Oracle gives a row. |

## Left out

- OCI loading, sessions, handle allocation, defines, and error texts: foreign calls. Exceptions are error values, or a
  loader outcome; in `Scan` an exception, which ends the query, is not a step.
- Dictionary queries, the choice between kinds of slices, how the SCN of a snapshot is found, and `TargetBlocks`: the
  list of units and the SCN are given.
- UnitQueries.StatementSelects: ORA_HASH is any function into its buckets.
- StatementHead.SelectedIsRead: ROWIDTOCHAR and CAST of a UROWID return a value that is not looked into; fetched bytes
  are those of the value returned, which the decoders' own results are about.
- DuckDB catalog, secrets, options, EXPLAIN text (`InlineBinds`), `ParseTargetName`, `ParseUnconstrainedNumber` and
  `BuildColumnPlan`: plumbing or easy next to the rest.
- `PlanReadColumn` beyond NUMBER and the expression that selects a column: its widths and decoders are a table by type.
- Floating-point bits: a double is an element of an ordered type, and a constant comes with the text that `%.17g` gives
  for it; that equal texts denote equal doubles is an assumption of `SameFragments`.
- Character sets that do not extend ASCII, and what conversions make of texts that a character set does not have: such
  texts are not pushed, and any Oracle behaviour is allowed for them, as for columns with a collation and for texts that
  are long or hold a NUL.
- The four length bytes of a VARCHAR bind: the bind is its text.
- `WriteSignedNumber`, `WriteUnsignedNumber`, `WriteDateTime`: the loop is that of `WriteHugeintNumber`; their encoders
  are modelled.
- `std::sort` and `std::stable_sort`: insertion sorts on values; only the order and stability they promise is used.
- NumberBinds.WriteHugeintNumber: the encoder writes to a buffer of its own that is then copied to the row's slot,
  because a pointer into the scratch buffer has no counterpart here.
- FetchCursors.FetchCursor.Fetch: LOB locators themselves are never cut; one LOB read never returns more bytes than the
  room it was given; the arrays of the columns are merged into arrays of two and three dimensions.
- FetchCursors.FetchCursor.ReadLob: sizes are unbounded integers, so the overflow of a 64-bit capacity is not modelled.
- CopyFinalize.FinishAll: finishing one session is one step; the threads touch no session but their own.
- CopyLoad.Load: a load that fails ends without a commit, as DuckDB does not call the commit of a failed query.
- WriterPool.PreparedRows: loading some rows of a batch is one step; what a loader does in it is `Loader.WriteChunk`.
- Calendar.DaysOfCivil: day numbers are unbounded integers, so the overflow of 64-bit arithmetic at the far ends is not
  modelled.
- FilterSoundness.TranslationSound: rows hold values as their column types store them, by the rules of `OracleColumns`;
  precisions of the dictionary are at most 38.
- FilterCoverage.OperandCovered: the names of timestamp types are those that the dictionary gives them.
- Loader.DirectPathLoader.ConvertAndLoad: reading the count of converted rows is part of the conversion's answer.
- Pushdown.ConvertSound: recognising columns and constants in DuckDB's expression classes is given as part of the
  expression type, with constants already of the column's type.
