# Chunked CSV splitting, binary and Roman numerals, and small utilities — a Dafny model

This project models four small Rust crates and proves properties of the model.

- **process_csv** splits a CSV byte stream into cells and records. A separator is a comma or a
  line feed that is outside double quotes. Quote bytes stay in the cells and nothing is
  unescaped. The stream is read into a buffer whose first size is the watermark. What follows
  the last separator of a chunk is carried over and put in front of the next read. Three readers share
  this scheme:
  - `reader.rs` reports cell and record-end events.
  - `csv_reader.rs` hands over records, either as raw bytes or decoded as text.
  - `chunk_reader.rs` decodes every cell and stops at the first cell that is not valid text.

  A fourth reader, `buf_reader.rs`, splits one line at a time.
- **add_binary_str** adds two binary numbers written as strings of `0` and `1`, digit by digit
  from the right. It is written once as a method of `Binary` and once as a free function.
- **roman_to_int** checks a Roman numeral's letters and reads its value from the right. A letter
  worth less than the letter to its right is subtracted.
- **utils** has two parts:
  - `biggest_number` forms the largest number from a list of decimal digits, using a histogram
    of the digits.
  - `AverageCollection` is a growable collection that caches its mean and clears the cache on
    every change.

The main result for process_csv is that the split does not depend on where the reads cut the
stream. The events, records and error outcome are always those of the concatenated bytes
scanned at once:

- `Reader.ProcessFile`, `CsvReader.CsvReader.ForEachRawLine` and `ChunkReader.ChunkReader.Run`
  prove this for the three chunked readers.
- `Stream.ChunksAreStream` is the chunk-by-chunk statement.

A cell whose quotes straddle two reads is handled correctly. The carry-over always starts at even
quote parity (`Scanner.CarryOffset`), so rescanning it from outside quotes continues the scan of
the whole stream (`Scanner.CarryStep`).

Modelling choices:

- Bytes are the newtype `Bytes.byte`, and u32 arithmetic is the newtype `Bytes.u32`. A Rust
  overflow is then a failed proof, and callers are required to avoid it.
- A file is the sequence of what its successive reads return.
- A callback is modelled by the sequence of events or records it receives.
- Whether bytes are valid UTF-8 text is the parameter `valid`.

## Model

| member | source | states |
|---|---|---|
| Scanner.InsideIsOddQuotes | process_csv/src/reader.rs:99-105 | the between-quotes flag after i bytes is exactly the parity of the quote bytes among them |
| Scanner.BoundaryAt | process_csv/src/reader.rs:106-113 | byte i ends a cell exactly when it is a comma or line feed at even quote parity; then the cell from the last start to i is found and the next cell starts after i; otherwise nothing changes |
| Scanner.FoundSeps | process_csv/src/reader.rs:107-110 | every boundary found ends with a separator, and a cell starts right after one |
| Scanner.RoundTrip | process_csv/src/reader.rs:92-117 | the cells with their separators, followed by the returned remainder, give back the chunk |
| Scanner.NoSepInRest | process_csv/src/reader.rs:116 | the remainder returned by split_chunk holds no separator at even quote parity |
| Scanner.CarryStep | process_csv/src/reader.rs:67-77 | scanning old bytes followed by new ones equals scanning the old remainder followed by the new bytes, offset by where that remainder starts |
| Scanner.CarryOffset | process_csv/src/reader.rs:67-77 | the carry-over starts at even quote parity, where the scan stood with every boundary before it already found, so a cell whose quotes straddle two reads is rescanned from outside quotes correctly |
| Scanner.RestHasNoSep | process_csv/src/reader.rs:77 | the carry-over, scanned again on its own, yields no boundary and stays the same |
| Scanner.FoundCountIsSepCount | process_csv/src/reader.rs:107-113 | the boundaries found with a given separator are exactly that separator's occurrences at even quote parity |
| Reader.SplitChunk | process_csv/src/reader.rs:92-117 | the events are each boundary's cell, followed by a record end at a line feed; the result is the bytes after the last boundary |
| Reader.ProcessFile | process_csv/src/reader.rs:52-82 | the events reported over all reads before the first 0-byte read are those of their concatenation scanned at once, then the remainder as a final cell |
| Stream.TakenReads | process_csv/src/reader.rs:59-63 | the reads taken in are non-empty; reading stops at the first 0-byte read, and at the end when no read is empty |
| Stream.AllTaken | process_csv/src/reader.rs:60-63 | with no 0-byte read, the whole stream is taken in |
| Stream.CarryOver | process_csv/src/reader.rs:67-77 | one turn of the loop: the new events extend the stream's events and the new carry-over is the stream's remainder |
| Stream.ChunksAreStream | process_csv/src/reader.rs:59-78 | the events and carry-over after k reads, chunk by chunk, equal the scan of the first k reads concatenated |
| Stream.FoundGrows | process_csv/src/reader.rs:99-114 | the boundaries found in a prefix are a prefix of those found later |
| Records.FeedAllAppend | process_csv/src/csv_reader.rs:106-113 | feeding two event sequences one after the other is feeding their concatenation |
| Records.FedChunks | process_csv/src/csv_reader.rs:100-116 | feeding chunk by chunk gives the assembly that feeding the events of all chunks at once gives |
| Records.FinalRecord | process_csv/src/csv_reader.rs:118-119 | the final flush adds the pending record, with the carry-over as its last cell |
| Records.FeedFound | process_csv/src/csv_reader.rs:106-113 | the records assembled from boundaries stand for the same bytes; one record is closed per line feed, and none is empty |
| Records.RecordsRoundTrip | process_csv/src/csv_reader.rs:93-122 | joining the records, cells by commas and records by line feeds, gives back the stream |
| Records.RecordsShape | process_csv/src/csv_reader.rs:93-122 | there is one record per unquoted line feed plus the final one; no record is empty; the last cell is the carry-over |
| Records.StepAllStopped | process_csv/src/chunk_reader.rs:73 | once a cell has failed to decode, later events change nothing |
| Records.StepAllValid | process_csv/src/chunk_reader.rs:63-81 | the decoding consumer fails exactly when some cell is invalid; otherwise it builds the raw records |
| Records.StopsAtFirstInvalid | process_csv/src/chunk_reader.rs:73 | at the first invalid cell the decoder fails, having handed over exactly the records completed before it |
| Records.RunStreamOutcome | process_csv/src/chunk_reader.rs:45-94 | over a whole stream the decoder fails exactly when a cell is not valid text, and otherwise hands over the raw records |
| Records.DecodeStep | process_csv/src/chunk_reader.rs:63-81 | one byte of run's loop: an unquoted separator adds the decoded cell or stops the decoder, and a line feed hands over the record; any other byte changes nothing |
| Records.DecodeStops | process_csv/src/chunk_reader.rs:73 | an invalid cell at byte i leaves the decoder, after the whole chunk, in its state just before that cell, failed |
| Records.RunStopped | process_csv/src/chunk_reader.rs:52-73 | once the decoder has stopped, whatever is read next changes nothing |
| Records.DecodeFlush | process_csv/src/chunk_reader.rs:90-91 | the final flush decodes the carry-over as one last cell and hands over its record, unless that cell is invalid |
| Records.EmitExtends | process_csv/src/chunk_reader.rs:52-88 | reading more of the stream only adds events after those already found |
| Decode.ParseCell | process_csv/src/chunk_reader.rs:96-101 | the cell as text exactly when its bytes are valid text, otherwise the error "failed when parsing cell" |
| Decode.DecodeChunk | process_csv/src/chunk_reader.rs:60-81 | the decoder's state after the chunk's events, given its state after the earlier events; on success j is the start of the carry-over; an invalid cell ends it early with an error |
| ChunkReader.ChunkReader.ReadChunk | process_csv/src/chunk_reader.rs:25-36 | None at end of stream; otherwise a copy of exactly the bytes the read put at the front of the buffer, with the read consumed |
| ChunkReader.ChunkReader.Run | process_csv/src/chunk_reader.rs:45-94 | whatever the reads, the records and outcome are those of the decoder over the whole stream: every record when every cell is valid text, otherwise those before the first invalid cell, and an error |
| CsvReader.CsvReader.ReadChunk | process_csv/src/csv_reader.rs:45-56 | None at end of stream; otherwise a copy of exactly the bytes the read put at the front of the buffer, with the read consumed |
| CsvReader.CsvReader.ForEachRawLine | process_csv/src/csv_reader.rs:93-122 | whatever the reads, the raw records handed over are those of the whole stream |
| CsvReader.CsvReader.ForEachLine | process_csv/src/csv_reader.rs:58-91 | as written, the records and outcome follow the reads one by one, and a chunk is judged by the callback's result on its last boundary only |
| CsvReader.CsvReader.ForEachLineChecked | process_csv/src/csv_reader.rs:58-91 | for_each_line with the split stopping at the first invalid cell: records and outcome are those of the decoder over the whole stream, whatever the reads |
| CsvReader.SplitToString | process_csv/src/csv_reader.rs:124-135 | every boundary of the chunk is fed to the callback; the chunk succeeds exactly when the callback succeeded on its last event; on success the carry-over is returned |
| LaxLines.LaxRun | process_csv/src/csv_reader.rs:58-91 | for_each_line as written, read by read: records once handed over are never taken back, and a run that ends with Ok has handed over the final record as well |
| LaxLines.ForEachLineRun | process_csv/src/csv_reader.rs:58-91 | a whole run of for_each_line from no records and no carry-over; when it ends with Ok, at least the final record has been handed over |
| LaxLines.LaxFeedValid | process_csv/src/csv_reader.rs:71-82 | when every cell is valid text, for_each_line's callback builds the raw records and succeeds on the last event |
| LaxLines.ForEachLineValid | process_csv/src/csv_reader.rs:58-91 | when every cell of the stream is valid text, for_each_line succeeds with exactly the raw records, whatever the reads |
| LaxLines.ForEachLineDependsOnReads | process_csv/src/csv_reader.rs:124-135 | the same bytes "\xFF,a\n", as one read or as two: one read drops the bad cell and succeeds, two reads fail; the fail-fast decoder rejects both |
| BufReader.ParseLine | process_csv/src/buf_reader.rs:34-61 | the cells are those closed by unquoted commas, then the rest without a final line feed; one cell per unquoted comma plus one; joined with commas they give back the line without the final line feed |
| BufReader.LineCellsCount | process_csv/src/buf_reader.rs:47-50 | one cell per comma outside quotes, plus the last |
| BufReader.LineCellsJoin | process_csv/src/buf_reader.rs:34-61 | joining the cells with commas gives back the line, less its final line feed |
| BufReader.ThreeCells | process_csv/src/buf_reader.rs:34-61 | two closed cells and an unsplit rest parse into those two cells and the rest, less a final line feed |
| BufReader.ParseLinePlain | process_csv/src/buf_reader.rs:76-82 | "Sample,Header,Example" gives the three cells |
| BufReader.ParseLineQuoted | process_csv/src/buf_reader.rs:85-91 | the quoted cell keeps its quotes and doubled quotes, and the final line feed is dropped |
| AddBinary.Build | add_binary_str/src/lib.rs:7-12 | a Binary exactly for strings of '0' and '1' (is_valid, lib.rs:22-24), otherwise the error message |
| AddBinary.Add | add_binary_str/src/lib.rs:46-97 | the digits of the sum, column by column with a final carry digit; only '0' and '1', so UTF-8 conversion cannot fail; on binary strings their value is the sum of the operands' values |
| AddBinary.FillSum | add_binary_str/src/lib.rs:56-86 | the loop writes the sum's digits into the buffer from its end and returns whether a carry is left |
| AddBinary.WriteColumn | add_binary_str/src/lib.rs:67-83 | one column of add's loop writes '0' or '1', and on two binary digits the written digit plus twice the carry out is the sum of the two digits and the carry in (a one-bit full adder) |
| AddBinary.ColumnAdds | add_binary_str/src/lib.rs:67-83 | on two binary digits, one column is a one-bit full adder |
| AddBinary.RippleValue | add_binary_str/src/lib.rs:46-97 | on strings of '0' and '1', the digits written stand for the sum of the two numbers and the carry in |
| AddBinary.RippleDigits | add_binary_str/src/lib.rs:94-96 | whatever the operands, only '0' and '1' are written |
| AddBinary.RippleLength | add_binary_str/src/lib.rs:50-92 | the sum is as long as the longer operand, or one longer and then starts with '1' |
| AddBinary.RippleFrom | add_binary_str/src/lib.rs:56-65 | walking the operands from the back by index computes the sum of their prefixes |
| AddBinary.AddExample | add_binary_str/src/lib.rs:42-44 | 1101 + 1011 = 11000 |
| AddBinaryMain.AddBinaryStr | add_binary_str/src/main.rs:12-47 | the same digits as Binary::add; only '0' and '1'; on binary strings the value is the sum |
| AddBinaryMain.MainSum | add_binary_str/src/main.rs:1-6 | "1010" + "1011" = "10101", that is 10 + 11 = 21 |
| Roman.Build | roman_to_int/src/lib.rs:7-13 | a numeral exactly for strings is_valid accepts (lib.rs:41-44), otherwise the letters error |
| Roman.BuildFrom | roman_to_int/src/lib.rs:15-24 | the second argument is built; with fewer than two arguments, the missing-string error |
| Roman.ToInteger | roman_to_int/src/lib.rs:56-83 | the value by the subtractive rule: a letter smaller than the one to its right counts negatively |
| Roman.ToIntegerUpper | roman_to_int/src/lib.rs:41-83 | with the lookup through upper case, every numeral build accepts converts, to the value of its upper-case form |
| Roman.ValidUpper | roman_to_int/src/lib.rs:41-44 | is_valid accepts exactly the strings whose upper-case form is made of table letters |
| Roman.TallyCoversPrev | roman_to_int/src/lib.rs:70-80 | the running total never drops below the value last read, so the u32 subtraction never wraps |
| Roman.TallyIsSubtractive | roman_to_int/src/lib.rs:70-80 | the right-to-left loop computes the left-to-right subtractive rule |
| Roman.AtMostHalf | roman_to_int/src/lib.rs:57-65 | of two table values, a smaller one is at most half of a larger one |
| Roman.ValidExamples | roman_to_int/src/lib.rs:35-39 | MCMXCIV is valid, ABCD is not |
| Roman.Example1994 | roman_to_int/src/lib.rs:52-54 | MCMXCIV is 1994 |
| Roman.LowercaseBuilds | roman_to_int/src/lib.rs:41-83 | "mcmxciv" builds, but to_integer's table has no entry for its letters |
| RomanMain.RomanToInt | roman_to_int/src/main.rs:8-35 | the value by the subtractive rule, never negative, with i32 arithmetic |
| RomanMain.MainValue | roman_to_int/src/main.rs:3-6 | MCMXCIV is 1994, well inside i32 |
| Biggest.BiggestNumber | utils/src/lib.rs:20-47 | the value of the digits in non-increasing order |
| Biggest.CountDigits | utils/src/lib.rs:22-29 | the histogram has one entry per decimal digit, holding how often it occurs |
| Biggest.Pow | utils/src/lib.rs:40 | 10_u32.pow(i) is 10^i, and fits u32 up to i = 9 |
| Biggest.DescendingSorted | utils/src/lib.rs:31-44 | the digits are written largest first |
| Biggest.DescendingPerm | utils/src/lib.rs:31-44 | each digit is written as often as it occurs |
| Biggest.SortedUnique | utils/src/lib.rs:31-44 | two non-increasing arrangements of the same digits are equal |
| Biggest.BiggestIsMax | utils/src/lib.rs:9-20 | the result is an arrangement of the digits, and no arrangement is worth more |
| Biggest.SortedIsDescending | utils/src/lib.rs:31-44 | a non-increasing arrangement of the digits is the order the loops write them in |
| Biggest.Example4311 | utils/src/lib.rs:14-18 | 3141 gives 4311 |
| Biggest.Example900 | utils/src/lib.rs:72 | 009 gives 900 |
| Biggest.ExampleSingle | utils/src/lib.rs:53-55 | 5 gives 5 |
| Biggest.Example321 | utils/src/lib.rs:59 | 123 gives 321 |
| Biggest.Example980 | utils/src/lib.rs:60 | 908 gives 980 |
| Biggest.ExampleRepeated | utils/src/lib.rs:64-67 | 111 gives 111 and 221 gives 221 |
| Biggest.ExampleTenDigits | utils/src/lib.rs:75-79 | 4222222222 from ten digits, below 2^32 |
| AverageCollection.AverageCollection.From | utils/src/average_collection.rs:7-14 | the given values, nothing cached |
| AverageCollection.AverageCollection.Add | utils/src/average_collection.rs:20-23 | the value is appended and the cache cleared; the cache invariant holds |
| AverageCollection.AverageCollection.Pop | utils/src/average_collection.rs:25-28 | the last value is removed and returned, or None when there is none; the cache is cleared |
| AverageCollection.AverageCollection.Average | utils/src/average_collection.rs:49-55 | None with no values, otherwise the mean; a cached mean is kept; the result is cached |
| AverageCollection.AverageCollection.CalcAverage | utils/src/average_collection.rs:57-71 | the sum of the values over their count |
| AverageCollection.MeanBounds | utils/src/average_collection.rs:57-71 | the mean lies between the smallest and the largest value |
| AverageCollection.MeanAppend | utils/src/average_collection.rs:20-23 | after add, the mean is the weighted combination of the old mean and the new value |
| AverageCollection.MeanConstant | utils/src/average_collection.rs:57-71 | the mean of equal values is that value |
| AverageCollection.AverageCache | utils/src/average_collection.rs:78-98 | the cache test: 5.0, then 7.5 after adding 10, pops of 10, 5 and None, then None; and the documentation examples, 2.0 for 1, 2, 3 and None for no values (lines 34-48) |

## Left out

- File opening, `build_from` of the readers and `Config::build_from` with the WATERMARK
  variable: environment and file-system I/O. The constructors take the watermark and the
  sequence of reads instead.
- Read errors ("Failed when reading file") and the `?` on `file.read`: a read is one element of
  the input sequence and cannot fail.
- The sizes of the reads: they are whatever the input sequence holds.
  - Every read is at most the buffer's current length. The buffer starts at the watermark. In
    `reader.rs` it is truncated to the bytes read and, when there is a carry-over, replaced by
    the carry-over followed by those bytes, so a later read can be larger than the watermark.
    Every result is proved for any reads, so these bounds do not matter.
- Reader.ProcessFile: stops at the first 0-byte read, as the code does. The two class readers
  instead keep the invariant that every pending read is non-empty and no larger than the
  buffer, because a 0-byte read from `File::read` means end of file.
- UTF-8 validity is the parameter `valid`, so `str::from_utf8` is not modelled byte by byte. A
  decoded cell keeps its bytes.
- `csv_reader.rs` split_chunk (lines 137-162) is the same code as `reader.rs` split_chunk, so
  both are modelled by Reader.SplitChunk.
- Buffer capacities and `mem::replace` / `mem::take` / `mem::swap`: they move values, so the
  model assigns the values.
- The loop inlined in chunk_reader.rs run is shared as Decode.DecodeChunk. `for_each_line`
  calls it only in the corrected model.
- Reader.SplitChunk: states the events and the remainder. That the cells, separators and
  remainder give back the chunk, and that the remainder has no unquoted separator, are stated
  once about the scan, as Scanner.RoundTrip and Scanner.NoSepInRest.
- buf_reader.rs `from`, `read_line` and the `Iterator` implementation: line-oriented file I/O.
  Only `parse_line` is modelled. `line[j..i]` is cut at ASCII bytes, so it never splits a
  character, and lines are modelled as bytes.
- The `main` functions of process_csv and utils, the `println!` calls and the `Display`
  implementation of `Binary`: output only. The json-db crate is not part of this model. The values printed are stated as
  AddBinaryMain.MainSum and RomanMain.MainValue.
- AddBinaryMain.AddBinaryStr: its loop is digit for digit the loop of `Binary::add`, so it
  shares AddBinary.FillSum and AddBinary.WriteColumn. `String::from_utf8(..).unwrap()` cannot
  fail, by AddBinary.RippleDigits.
- Panics become preconditions:
  - Roman.ToInteger, RomanMain.RomanToInt: the HashMap index panics on a char not in the table,
    and the arithmetic overflows u32/i32 on a total of 2^32/2^31 or more.
  - Biggest.BiggestNumber:
    - a non-digit char is not counted, so the outer loop walks below '0' and `unwrap` panics;
    - more than ten digits overflow `10_u32.pow`;
    - the result must fit u32. 4222222222 is the largest value the tests reach
      (Biggest.ExampleTenDigits).
  - AverageCollection.AverageCollection.CalcAverage: panics on an empty collection. Its caller
    `average` never calls it then.
- The `println!` inside biggest_number's loop: output only.
- AverageCollection: the generic `T: Number` is modelled as `int`, and the f64 mean as the exact
  real quotient, so floating-point rounding is not modelled. The `Number` trait and
  collection_analyzer.rs are not part of this model.
- AddBinary: strings are modelled as their UTF-8 bytes, as `bytes()` walks them. `usize`
  indices never underflow, by FillSum's loop invariant.

## Findings

| source | as written | input that shows it | evidently intended | confidence | as-written member | corrected member |
|---|---|---|---|---|---|---|
| process_csv/src/csv_reader.rs:124-135 | split_to_string overwrites the callback's result at every boundary, so only the result on a chunk's last event is reported; a cell that is not valid text is silently dropped unless it is the chunk's last event | the bytes "\xFF,a\n" as one read (the bad cell is dropped and for_each_line returns Ok) versus as the reads "\xFF," and "a\n" (for_each_line returns the error) | the first cell that is not valid text ends for_each_line with an error, whatever the reads, as chunk_reader.rs run does | not executed | LaxLines.ForEachLineDependsOnReads | CsvReader.CsvReader.ForEachLineChecked |
| roman_to_int/src/lib.rs:41-83 | is_valid takes each char to upper case, but to_integer looks the char up as it is, in a table of upper-case letters | "mcmxciv": build returns Ok, and the first lookup of to_integer panics | every numeral that build accepts converts, reading lower-case letters as their upper-case forms | not executed | Roman.LowercaseBuilds | Roman.ToIntegerUpper |

In the first row, the corrected member is for_each_line with a split that stops at the first
invalid cell. Its outcome is Records.RunStream of the concatenated reads, which
Records.RunStreamOutcome shows fails exactly when some cell is not valid text. The as-written
behaviour is modelled by CsvReader.CsvReader.ForEachLine (LaxLines.ForEachLineRun). When every
cell is valid text, the two agree (LaxLines.ForEachLineValid).

In the second row, the as-written conversion is Roman.ToInteger, which requires every char to be
a table key. The corrected Roman.ToIntegerUpper requires only what build checks, by
Roman.ValidUpper.
