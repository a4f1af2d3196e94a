# Calendar, JSON, checksums, packet framing and flag names

A Dafny model of five self-contained parts of the repository, with proofs that they compute what
they are for. `dafny verify dfyconfig.toml` checks everything.

**Calendar (`src/shared/time64.c`).** `Calendar.dfy` defines the proleptic Gregorian calendar without
reference to the program: the date of a second is found by walking one year at a time from 1970 and
then one month at a time. `Time64.dfy` models `gmtime64_r` (C's truncating division, the 2008 shortcut,
the 400-year jumps and the overshoot for negative days) and `timegm64` as methods over a `TM` object,
and proves that they compute that date and its inverse for every `int64` time. `SolarCycle.dfy` proves
that `safe_year` gives, for every year, a year in 1971..2037 with the same calendar. `LocalTime.dfy`
models the system's `localtime_r` and `mktime` as UTC plus a fixed offset of at most a day, and proves
that the detour of `localtime64_r` through a safe year cannot be seen. `mktime64` relies on an identity
that holds exactly for the years after 1200: `seconds_between_years` moves a year before 1600 away from
its target when it takes off whole cycles, so before 1201 cycles are taken off twice
(`LocalTime.MktimeIdentity`, with the year 1200 as the instance that fails). A date with any fields out
of range is corrected, as the comment at `src/shared/time64.c:573` says, if and only if it is in the
system's range, or it is after 1200, nothing carries it out of its year, and it is as far into the safe
year as into its own (`LocalTime.MktimeExact`). The 32nd of December and a day counted back from March
2100 are instances that fail.

**JSON (`src/tritonn/cJSON.c`).** A text is a byte string; a tree of items is a value. `Json.dfy` defines
the text of a value, `JsonParse.dfy` what a text means, as functions. `JsonPrinter.dfy` (allocate the
parts, then join them), `JsonBuffer.dfy` (one buffer that grows), `JsonParser.dfy` (pointers walking the
text, strings in two passes) and `JsonMinify.dfy` (in place) are the program's imperative code, each
proved against those functions: every block is large enough for what is written to it, printing and
parsing undo each other, the two printers agree, and minifying turns one text into the other.
`JsonMeaning.dfy` proves that minifying keeps the meaning of every text that the parser reads to its end.
More files hold this against definitions of their own, with the bytes written as numbers. `JsonSyntax.dfy`
lists the forms of a text for a value, and `JsonSpelling.dfy` proves that the parser reads these and no
others (`JsonUnsettled.dfy` bounds the texts for which the model has no outcome). `JsonLayout.dfy` lays
the unformatted text out on lines; `JsonShortest.dfy` proves that no text without control characters is
shorter than the unformatted one; `JsonChunks.dfy` divides any text into what the minifier keeps and what
it takes out.
The parser builds a tree of linked items on the heap; `JsonTree.dfy` says what value such a tree stands
for. `JsonList.dfy` is the doubly linked child list, edited in place. The room that the parser counts for
a string is not always enough: where the four bytes after `\u` are not all hexadecimal and hold a quote,
the literal ends there for the counting pass only. `JsonEscapes.SkippedExact` is the exact condition.

**Checksums (`src/shared/crc32.h`, `src/shared/adler.c`).** CRC-32 (section 8 of RFC 1952) and CRC-16
(section 6.2.2 of the MODBUS over Serial Line guide V1.02) are defined bit by bit in `CrcRegister.dfy`;
`Crc.dfy` proves that the table engines compute them, and that `getReversedBytes` finds four bytes that
steer the register anywhere. That needs bit 31 of the polynomial; without it no bytes can reach a
checksum below 2^31 (`Crc.TopBitLost`). `Adler.dfy` proves that delaying the modulo by NMAX bytes never
overflows 32 bits and gives the sums of section 8.2 of RFC 1950, whose base it proves to be the largest
prime below 2^16. For a single byte `ofCRC` reduces by one subtraction, which is enough exactly when the
sums it starts from are not too large (`Adler.OfCrc`), and a checksum can be continued exactly where that
does not show (`Adler.ContinuesExact`). `CrcKnown.dfy` ties the two polynomials to their published
exponents and check values.

**Packet framing (`src/shared/packet_client.cpp`).** The client is an object fed with arbitrary chunks;
a stream is a list of frames, perhaps followed by a header that fails its checksum. The loop that takes
packets out is the callers' (`src/tritonn/term_manager.cpp`), which judge each packet in the state that
those before it left, and may refuse it.

**Flag names (`src/shared/bits_array.cpp`).** A 32-bit word is the set of its bits. Writing a value as
names and reading it back gives the value masked by the table exactly when no named flag has two bits.

Where the comments of the repository and its code differ, the model follows the code: the comment at
`src/shared/time64.c:800-805` speaks of a point in the cycle that has no matching safe year, while
`SolarCycle.SafeYearMatches` shows that every year has one.

## Model

| member | source | states |
|---|---|---|
| Calendar.DaysToYearClosedForm | src/shared/time64.c:134-135 | walking one year at a time from 1970, either way, counts the leap years by three rounded-down quotients |
| Calendar.GregorianCycle | src/shared/time64.c:644-649 | the calendar repeats after 400 years and 146097 days, for any number of cycles forward or back |
| Calendar.CivilIsUnique | src/shared/time64.c:589-717 | a valid date whose parts agree and add up to a time is the date found by walking |
| Calendar.CivilNames | src/shared/time64.c:589-717 | the date found by walking is valid, its parts agree, and it adds up to its time |
| Calendar.SecondsOfCivil | src/shared/time64.c:238-282 | the seconds of the date of a time are that time |
| Calendar.CivilOfSeconds | src/shared/time64.c:238-282 | the date of the seconds of a valid date is that date, with the right weekday and day of the year |
| Calendar.MonthsByFormula | src/shared/time64.c:57-65 | from March on, in ordinary years and in leap years, the days before a month are 153 to every five months, rounded |
| Calendar.FirstGregorianDay | src/shared/time64.c:589-717 | 141427 days before 1970 it was Friday, 15 October 1582, the first day of the Gregorian calendar |
| Calendar.LeapDayOf2000 | src/shared/time64.c:134-135 | 11016 days after 1970 began it was Tuesday, 29 February 2000 |
| SolarCycle.YearCycle | src/shared/time64.c:368-387 | the index into the 28-year tables is always 0..27, so the program's assertion holds |
| SolarCycle.CycleOffsetCountsExceptions | src/shared/time64.c:324-340 | truncating division on either side of 2000 counts the centuries without a leap day |
| SolarCycle.SafeYearInCycle | src/shared/time64.c:359-401 | both tables follow the 28-year cycle, and the safe year is in 1971..2037 |
| SolarCycle.SafeYearMatches | src/shared/time64.c:342-401 | for every year the safe year starts on the same weekday with the same leap status, the year before it matches in both, and the year after it starts on the same weekday |
| SolarCycle.SafeYearExactly | src/shared/time64.c:88-110 | which year stands in: the year itself in 1971..2037, before that one of 1971..1998 and after it one of 2010..2037, whole 28-year cycles away from the year moved by 16 for every dropped leap day and by 11 or 17 at a century without one |
| Time64.LeapIndex | src/shared/time64.c:134 | the leap-year macro, with C's remainder on negative years, is the Gregorian rule |
| Time64.SplitTime | src/shared/time64.c:621-631 | the wrapped seconds, minutes and hours are in range and add up to the time, before 1970 too |
| Time64.SearchForward | src/shared/time64.c:643-664 | the cycle jump and the two loops find the year, month and day that many days after a year's start |
| Time64.SearchBackward | src/shared/time64.c:665-690 | the overshooting jump and the downward loops find the same for days before a year's start |
| Time64.FindDay | src/shared/time64.c:636-690 | with or without the 2008 shortcut, the day found is the day walked to |
| Time64.BreakDown | src/shared/time64.c:621-690 | the numbers worked out before the struct is touched are those of the civil date |
| Time64.TM.Store | src/shared/time64.c:692-716 | the year is stored first, and nothing else if it does not fit |
| Time64.Gmtime64R | src/shared/time64.c:589-717 | for every int64 time the result is its civil date, or a refusal exactly when the year does not fit |
| Time64.PassesCheck | src/shared/time64.c:285-318 | a civil date passes the range check that the conversions assert |
| Time64.CheatDay | src/shared/time64.c:129-131 | the shortcut constant is 1 January 2008 |
| Time64.DaysToTmYear | src/shared/time64.c:242-270 | the cycle reduction and the year loops count the days to a year |
| Time64.Timegm64 | src/shared/time64.c:238-282 | the result is the number of seconds to the date |
| Time64.GmtimeThenTimegm | src/shared/time64.c:589-717 | every int64 time whose year fits comes back from its own date |
| Time64.TimegmThenGmtime | src/shared/time64.c:238-282 | every valid date comes back from its own time, with weekday and day of the year filled in |
| Time64.TimeFitsInt64 | src/shared/time64.c:275-281 | the seconds of a date with an int year fit int64 |
| LocalTime.DetourInvisible | src/shared/time64.c:744-807 | converting in a year with a matching calendar and repairing year and day of the year gives the local date in the real year |
| LocalTime.ConvertInStandIn | src/shared/time64.c:749-765 | the date given to the system has the calendar of the real year |
| LocalTime.RepairLocal | src/shared/time64.c:767-807 | the repairs in place depend on the year before and the two months only |
| LocalTime.SafeLocaltime | src/shared/time64.c:749-807 | the detour ends with the date of the time plus the offset |
| LocalTime.Localtime64R | src/shared/time64.c:720-812 | for every int64 time, inside the system's range or not, the result is the civil date of the time plus the offset |
| LocalTime.SystemRangeFits | src/shared/time64.c:731-742 | the system's range has years that fit |
| LocalTime.SecondsBetweenYears | src/shared/time64.c:510-545 | the distance of two years when the left one is later, and what the cycle reduction makes of it when it is earlier |
| LocalTime.SecondsToSafeYearExact | src/shared/time64.c:510-545 | the distance from a year to its safe year is right if and only if the year is after 1200 |
| LocalTime.ExactBefore1200Fails | src/shared/time64.c:521-526 | the year 1200 gets a wrong distance |
| LocalTime.MktimeIdentity | src/shared/time64.c:565-576 | the seconds of a valid date are those of the date in the safe year plus the distance, if and only if the year is after 1200 |
| LocalTime.CmpDateOrdersTimes | src/shared/time64.c:185-231 | comparing year, month, day, hour, minute and second in turn orders valid dates by time |
| LocalTime.SystemMktimeRange | src/shared/time64_limits.h:21-56 | the two dates that bound the system's range are the ends of the 32-bit clock, eight hours earlier |
| LocalTime.InRangeByTime | src/shared/time64.c:185-231 | a valid date is given to the system as it stands if and only if its time is between those two |
| LocalTime.MktimeCarries | src/shared/time64.c:565-576 | after 1200, a date with any fields out of range gets the right time outside the system's range if and only if nothing carries it out of its year and it is as far into the safe year as into its own |
| LocalTime.CarryFails | src/shared/time64.c:565-576 | the 32nd of December leaves its year, and gets a wrong time in every year after 1200 outside the system's range |
| LocalTime.LeapDayFails | src/shared/time64.c:565-576 | a date in 2099 written as a day of March 2100 counts back over a leap day that only the safe year has, and gets a wrong time |
| LocalTime.MonthKeepsPlace | src/shared/time64.c:565-576 | with the month in range a date is as far into the safe year as into its own |
| LocalTime.EarlyNeverRight | src/shared/time64.c:510-545 | up to the year 1200 the distance is too short by a year or more, wherever in 1600..2400 the system finds the date |
| LocalTime.MktimeExact | src/shared/time64.c:548-580 | the time returned is that of the date if and only if it is in the system's range, or after 1200, kept in its year and in the same place in the safe year |
| LocalTime.Mktime64 | src/shared/time64.c:548-580 | the time and the date left in the caller's struct, with any fields out of range; the time is right exactly under that condition |
| LocalTime.MktimeOfValid | src/shared/time64.c:548-580 | a valid date is only completed, or left in the safe year outside the system's range |
| LocalTime.LocaltimeThenMktime | src/shared/time64.c:548-812 | a time is brought back by its own local date if and only if the year of that date is after 1200 |
| LocalTime.MktimeThenLocaltime | src/shared/time64.c:548-812 | a valid date is brought back by its own time, weekday and day of the year aside, for exactly the same years |
| JsonParse.ParseValue | src/tritonn/cJSON.c:357-369 | a value that is read takes at least one byte of the text, so every parse ends |
| JsonParse.Hex4 | src/tritonn/cJSON.c:177-188 | four hexadecimal digits are a 16-bit number |
| JsonParser.ParseHex4 | src/tritonn/cJSON.c:177-188 | the digits are shifted in one after the other, and the first byte that is none makes the whole code unit zero |
| JsonParse.Pair | src/tritonn/cJSON.c:221-227 | a surrogate pair is a code point above the 16-bit ones and below 0x110000 |
| JsonRoundTrip.NumberBack | src/tritonn/cJSON.c:96-162 | every C int, written in decimal, is read back whatever follows that does not continue a number |
| JsonRoundTrip.ByteBack | src/tritonn/cJSON.c:203-304 | every byte but zero is read back from its own escape |
| JsonRoundTrip.StringBack | src/tritonn/cJSON.c:192-307 | every C string is read back from its literal, whatever follows |
| JsonRoundTrip.ValueBack | src/tritonn/cJSON.c:357-658 | every value is read back from its text at any depth, formatted or not, leaving what follows |
| JsonRoundTrip.ParseOfPrint | src/tritonn/cJSON.c:339-343 | `cJSON_Parse` of `cJSON_Print` or `cJSON_PrintUnformatted` rebuilds every value, to the end of the text |
| JsonRoundTrip.ParseInContext | src/tritonn/cJSON.c:320-336 | any bytes from 1 to 32 may precede a printed value, and what follows it is left alone |
| Utf8.Encode | src/tritonn/cJSON.c:229-237 | a code point takes one to four bytes, as its size says |
| Utf8.DecodeEncode | src/tritonn/cJSON.c:229-237 | UTF-8 decoding (section 3 of RFC 3629, shortest forms only, no surrogates) gives back every scalar value from its bytes |
| Utf8.LaterByteBits | src/tritonn/cJSON.c:231-234 | setting and masking the two high bits leaves the low six bits of the code point beside the continuation mark |
| Utf8.MarkAdded | src/tritonn/cJSON.c:235 | the mark of a first byte does not overlap the bits it is joined with |
| JsonEscapes.EscapeFits | src/tritonn/cJSON.c:197-242 | an escape that the first pass steps over whole never writes more bytes than that pass counted for it |
| JsonEscapes.ContentsFit | src/tritonn/cJSON.c:197-244 | the contents of a literal all of whose escapes are stepped over whole fit the room that the first pass counted |
| JsonEscapes.SkippedExact | src/tritonn/cJSON.c:197-242 | after a `\u` escape skipped for its digits the contents fit, whatever literal follows, if and only if the first pass steps over it whole: no quote in it, and no escape across its end |
| JsonEscapes.QuoteOverfills | src/tritonn/cJSON.c:197-242 | with a quote as the first of the four bytes one byte is counted and any number may be written |
| JsonEscapes.OverrunIsUndefined | src/tritonn/cJSON.c:197 | the first pass steps over the end of the text only when the second one would too |
| JsonEscapes.OneSpelled | src/tritonn/cJSON.c:203-242 | a code point in a literal is written as itself, as a short escape or as a `\u` escape, and comes out as its UTF-8 |
| JsonEscapes.SpelledBack | src/tritonn/cJSON.c:203-244 | code points written in any mixture of these ways, with hexadecimal digits of either case and surrogate pairs, come out as UTF-8 that reads back as the same code points |
| JsonSpelling.PiecesRead | src/tritonn/cJSON.c:203-246 | the characters of a literal, each as itself, after a backslash, or as one or two `\u` escapes, come out as what they mean one by one, up to a closing quote or the end of the text |
| JsonSpelling.NumeralRead | src/tritonn/cJSON.c:96-115 | a sign, one zero and digits without a leading zero, any two of them optional, are read as their decimal value |
| JsonSpelling.ValueRead | src/tritonn/cJSON.c:357-547 | every form of a value, with any bytes from 1 to 32 around every token, is read as that value, and what follows is left alone |
| JsonSpelling.ValueIn | src/tritonn/cJSON.c:357-547 | a text that is read as a value is one of its forms |
| JsonSpelling.ParsesExactly | src/tritonn/cJSON.c:320-339 | `cJSON_Parse` reads a text as a value, up to a place, if and only if white space and a form of that value stand there |
| JsonSpelling.SpacedEmpty | src/tritonn/cJSON.c:412-413 | `[ ]` is an empty array |
| JsonSpelling.SpacedItems | src/tritonn/cJSON.c:415-429 | `[1 ,2 ]` is an array of two numbers |
| JsonSpelling.SpacedRecord | src/tritonn/cJSON.c:523-545 | `{ "a" : 1 }` is an object of one member |
| JsonUnsettled.SettledTexts | src/tritonn/cJSON.c:96-246 | a text without a backslash, a fraction, an exponent and ten digits in a row is read or refused, and what is left of it is its end |
| JsonParser.SkipSpace | src/tritonn/cJSON.c:320 | skipping stops at the first byte that is not white space |
| JsonParser.ParseNumberAt | src/tritonn/cJSON.c:96-115 | the digit loop reads the number, or reports that it is not a C int |
| JsonParser.CountString | src/tritonn/cJSON.c:197 | the first pass counts the bytes that the contents may take, or finds that it runs over the end |
| JsonParser.WriteUtf8 | src/tritonn/cJSON.c:229-237 | writing backwards, six bits at a time, puts the UTF-8 of the code point after what was written |
| JsonParser.FirstByte | src/tritonn/cJSON.c:235 | the first byte is its mark plus the bits that are left |
| JsonParser.PairBits | src/tritonn/cJSON.c:221-227 | masking, shifting and joining the halves of a surrogate pair gives its code point |
| JsonParser.WriteEscape | src/tritonn/cJSON.c:206-242 | one escape of the second pass writes what it stands for, or nothing if its digits are not hexadecimal, and is passed over whole |
| JsonParser.WriteString | src/tritonn/cJSON.c:203-244 | the second pass writes the contents and a zero byte inside the block allocated by the first |
| JsonParser.ParseStringAt | src/tritonn/cJSON.c:192-249 | a string literal is read as its contents, and the position after its closing quote is returned |
| JsonParser.ParseValueAt | src/tritonn/cJSON.c:357-369 | the pointer-walking parser does what parsing the remaining text does, and the item it fills is the root of a tree of new items that stands for the value |
| JsonParser.ParseItemsAt | src/tritonn/cJSON.c:415-427 | the comma loop reads the items in order, and links each new item after the last one; the trees under them are apart and stand for the values |
| JsonParser.ParseMembersAt | src/tritonn/cJSON.c:523-543 | the same for the members of an object, each a name, a colon and a value; the linked items bear the names |
| JsonParser.ParseMemberAt | src/tritonn/cJSON.c:537-541 | the string read first becomes the name of the item, into which the value is parsed then |
| JsonParser.ParseText | src/tritonn/cJSON.c:323-339 | leading white space and one value are read into a new item, the root of a tree that stands for it; what follows is not looked at |
| JsonTree.LinkNew | src/tritonn/cJSON.c:421-424 | linking a new item after the last one keeps the list linked both ways and every finished tree standing |
| JsonTree.RootsAreApart | src/tritonn/cJSON.c:415-427 | no item of a child list lies in the tree under another |
| JsonTree.StandsForOne | src/tritonn/cJSON.c:357-369 | a tree of linked items stands for one value only |
| JsonTree.KindNumbers | src/tritonn/cJSON.h:34-40 | the number that the parser leaves as the kind of an item, for each kind of value |
| CStrings.StringLength | src/tritonn/cJSON.c:138-144 | counting from inside a block stops at the zero byte that ends its string |
| JsonText.TextNoZero | src/tritonn/cJSON.c:372-403 | a text is a C string |
| JsonText.NumberLength | src/tritonn/cJSON.c:157-162 | a C int takes at most eleven bytes |
| JsonShortest.PieceShortest | src/tritonn/cJSON.c:286-304 | the escape written for a byte is the shortest piece of a literal without control characters that means the byte |
| JsonShortest.ControlDigits | src/tritonn/cJSON.c:302 | a control character without a letter of its own is written as two zeros and its two digits in lower case |
| JsonShortest.TextShortest | src/tritonn/cJSON.c:372-658 | no form of a value without control characters is shorter than its unformatted text |
| JsonShortest.NothingShorter | src/tritonn/cJSON.c:339-343 | no closed text without control characters that `cJSON_Parse` reads as a value is shorter than what `cJSON_PrintUnformatted` gives, which holds none |
| JsonLayout.TextLaidOut | src/tritonn/cJSON.c:501-655 | laying out the unformatted text of a value gives its formatted text, whatever brackets are open around it and whatever follows |
| JsonLayout.FormattedIsLaidOut | src/tritonn/cJSON.c:342-343 | `cJSON_Print` gives what `cJSON_PrintUnformatted` gives, laid out byte by byte: line ends, tabs for the open brackets, a tab after a colon, a space after a comma in an array |
| JsonText.ItemsStep | src/tritonn/cJSON.c:501-508 | what is left to write of an array is one item, a comma unless it is the last, and the rest |
| JsonText.MembersStep | src/tritonn/cJSON.c:642-655 | what is left to write of an object is one member, a comma unless it is the last, a line end, and the rest |
| JsonPrinter.PlainEscape | src/tritonn/cJSON.c:256-268 | a string without control characters, quotes and backslashes is its own escaped form |
| JsonPrinter.MeasureString | src/tritonn/cJSON.c:256-278 | the length counted before a string is written is that of its escaped form |
| JsonPrinter.WriteString | src/tritonn/cJSON.c:257-306 | quotes, escapes and the zero byte are written within the length counted plus three |
| JsonPrinter.PrintString | src/tritonn/cJSON.c:252-307 | the block of a string holds its literal and is filled to the last byte |
| JsonPrinter.ItemsFit | src/tritonn/cJSON.c:477-508 | the item lengths added up in the first pass cover the text of the rest of an array |
| JsonPrinter.MembersFit | src/tritonn/cJSON.c:619-655 | the member lengths added up in the first pass cover the text of the rest of an object |
| JsonPrinter.RoomIsEnough | src/tritonn/cJSON.c:252-656 | the block allocated for any value has room for its text and the zero byte; a string fills it exactly |
| JsonPrinter.PrintItems | src/tritonn/cJSON.c:471-483 | the first pass over an array holds every item's text and the length to allocate |
| JsonPrinter.PrintMembers | src/tritonn/cJSON.c:618-626 | the first pass over an object holds every name's and value's text and the length to allocate |
| JsonPrinter.ComposeArray | src/tritonn/cJSON.c:498-508 | the second pass writes the text of the array and its zero byte in the block |
| JsonPrinter.ComposeObject | src/tritonn/cJSON.c:640-655 | the second pass writes the text of the object and its zero byte in the block |
| JsonPrinter.PrintValue | src/tritonn/cJSON.c:372-403 | the block returned holds the text of the value |
| JsonPrinter.Print | src/tritonn/cJSON.c:342-343 | the block returned holds the formatted or the unformatted text |
| PowerOfTwo.FillsTwice | src/tritonn/cJSON.c:117 | joining a number with itself shifted by the length of its leading run of ones doubles that run |
| PowerOfTwo.Pow2gt | src/tritonn/cJSON.c:117 | the result is never below the size, and for sizes of up to 32 bits it is the least such power of two |
| JsonBuffer.PrintBuffer.Ensure | src/tritonn/cJSON.c:121-136 | there is room for the bytes asked for, and every byte of the old buffer is kept |
| JsonBuffer.PrintBuffer.Update | src/tritonn/cJSON.c:138-144 | the end of the string just written is found from anywhere inside it |
| JsonBuffer.PrintBuffer.PrintString | src/tritonn/cJSON.c:252-307 | a string is appended to what was written before, and the offset stays before it |
| JsonBuffer.PrintBuffer.PrintValue | src/tritonn/cJSON.c:372-388 | a value is appended to what was written before, with the offset left somewhere inside it, whatever is reallocated |
| JsonBuffer.PrintBuffer.PrintArray | src/tritonn/cJSON.c:453-468 | an array's text is appended, the offset stays before its closing bracket |
| JsonBuffer.PrintBuffer.PrintMembers | src/tritonn/cJSON.c:570-607 | an object's text is appended in the same way |
| JsonBuffer.PrintBuffered | src/tritonn/cJSON.c:345-353 | for every initial size of at least one byte the buffer holds the same text as the other printers give |
| JsonMinify.StringStays | src/tritonn/cJSON.c:746 | a literal is kept as it is, whatever its escapes, and what follows is minified |
| JsonMinify.TextMinifies | src/tritonn/cJSON.c:735-750 | the text of a value, formatted or not, becomes its unformatted text, and what follows is minified |
| JsonMinify.MinifyOfPrint | src/tritonn/cJSON.c:735-750 | minifying `cJSON_Print` gives `cJSON_PrintUnformatted`, and that stays as it is |
| JsonMeaning.LiteralKept | src/tritonn/cJSON.c:746 | the parser and the minifier agree on where a literal ends |
| JsonMeaning.ValueKept | src/tritonn/cJSON.c:735-750 | a value read up to a place where it may end is read from the minified text too, and what is left is the minified rest |
| JsonMeaning.MinifyKeepsMeaning | src/tritonn/cJSON.c:735-750 | every text that the parser reads to its end, and that leaves nothing open, is parsed to the same value when minified, with nothing but white space left |
| JsonChunks.ChunksMinify | src/tritonn/cJSON.c:735-750 | of white space, comments, literals and other bytes, in any order in which each ends where it does, the literals and the other bytes are kept |
| JsonChunks.MinifiesExactly | src/tritonn/cJSON.c:735-750 | a text is minified to another if and only if it divides so and the other is what is kept |
| JsonChunks.NoSpaceLeft | src/tritonn/cJSON.c:740-743 | outside its literals a minified text holds no space, tab, carriage return or line end |
| JsonMinify.LineCommentGoes | src/tritonn/cJSON.c:744 | a line comment is taken out up to the end of its line |
| JsonMinify.BlockCommentGoes | src/tritonn/cJSON.c:745 | a block comment is taken out up to its end mark, if its text does not start with a slash |
| JsonMinify.SlashEndsAtOnce | src/tritonn/cJSON.c:745 | a block comment whose text starts with a slash ends there, because the opening star is read again |
| JsonMinify.MinifyShrinks | src/tritonn/cJSON.c:735-750 | no text grows |
| JsonMinify.CopyLiteral | src/tritonn/cJSON.c:746 | a literal is moved with its quotes and escapes, the write cursor never passing the read cursor |
| JsonMinify.SkipComment | src/tritonn/cJSON.c:745 | a block comment is passed over up to its first end mark, which may share its star with the opening |
| JsonMinify.SkipLine | src/tritonn/cJSON.c:744 | a line comment is passed over up to the end of the line |
| JsonMinify.MinifyInPlace | src/tritonn/cJSON.c:735-750 | the block ends up holding the minified text, for every text that leaves no literal or comment open |
| JsonPipeline.PrintAndParse | src/tritonn/cJSON.c:339-343 | printing a value and parsing the block gives linked items that stand for the value |
| JsonPipeline.BufferMinifyAndParse | src/tritonn/cJSON.c:345-750 | so does printing into a growing buffer, minifying in it and parsing it |
| JsonList.ChainIsAcyclic | src/tritonn/cJSON.c:671-688 | a chain that ends holds no item twice |
| JsonList.PlacesChanged | src/tritonn/cJSON.c:677-688 | positions count from zero: what is before one stays, the item comes, goes or changes there, and the rest follows |
| JsonList.PlacesOutside | src/tritonn/cJSON.c:677-688 | a negative position is that of the first item, and past the end an item is only ever appended |
| JsonList.LinkedInTwo | src/tritonn/cJSON.c:677-688 | a chain is linked exactly when its two parts are, each knowing the other's end |
| JsonList.AddItemToArray | src/tritonn/cJSON.c:671 | the item is appended and the chain stays linked both ways |
| JsonList.DetachItemFromArray | src/tritonn/cJSON.c:677-678 | the item at the position is removed and unlinked, negative positions mean the first; past the end nothing changes |
| JsonList.InsertItemInArray | src/tritonn/cJSON.c:684-685 | the item is inserted before the position, or appended past the end |
| JsonList.ReplaceItemInArray | src/tritonn/cJSON.c:686-688 | the item at the position is replaced and unlinked; past the end nothing changes |
| JsonList.InsertThenDetach | src/tritonn/cJSON.c:677-685 | detaching at the same position undoes inserting if and only if the position is at most the length |
| JsonList.ReplaceIsDetachThenInsert | src/tritonn/cJSON.c:677-688 | replacing is detaching and inserting at the same position |
| CrcRegister.StepsLinear | src/shared/crc32.h:31 | running the register is linear over exclusive or |
| CrcRegister.EightByTable | src/shared/crc32.h:39-42 | eight steps are a lookup of the low byte and a shift |
| CrcRegister.FeedByTable | src/shared/crc32.h:39-42 | one lookup and one shift feed the eight bits of a byte |
| CrcRegister.BitSerialAppend | src/shared/crc32.h:44-53 | a message fed in two parts is fed whole |
| CrcRegister.StepsInjective | src/shared/crc32.h:31 | with bit 31 in the polynomial different registers stay different |
| CrcRegister.StepsSurjective | src/shared/crc32.h:31 | with bit 31 in the polynomial every register is reached from some register |
| CrcRegister.TopBytesCovered | src/shared/crc32.h:62-71 | with bit 31 in the polynomial some table entry has any given top byte, so the inner search succeeds |
| CrcRegister.TopBytesDistinct | src/shared/crc32.h:62-71 | with bit 31 in the polynomial no two table entries have the same top byte |
| Crc.RoundUndoes | src/shared/crc32.h:64-68 | removing the entry found and shifting gives the register before the byte |
| Crc.RoundKeeps | src/shared/crc32.h:60-72 | after every round, running forward again reaches the wanted register |
| Crc.FeedFourBytes | src/shared/crc32.h:44-53 | feeding the little-endian bytes of a word is joining it in and running four bytes on |
| Crc.TopBitLost | src/shared/crc32.h:55-75 | without bit 31 in the polynomial no appended bytes bring the checksum below 2^31 |
| Crc.Crc32.constructor | src/shared/crc32.h:16-37 | the table holds the eight-step registers, and with bit 31 the inverse table undoes every entry by its top byte |
| Crc.Crc32.Init | src/shared/crc32.h:19-37 | the nested loops fill both tables so |
| Crc.Crc32.Update | src/shared/crc32.h:39-42 | one update feeds one byte bit by bit |
| Crc.Crc32.Get | src/shared/crc32.h:44-53 | the table engine computes the bit-serial CRC-32 of every message |
| Crc.Crc32.FindTopByte | src/shared/crc32.h:62-64 | the search stops at an entry with the wanted top byte, or there is none |
| Crc.Crc32.GetReversedBytes | src/shared/crc32.h:55-75 | for every message with the start checksum, appending the four bytes makes the checksum the wanted one |
| Crc.Crc16.constructor | src/shared/crc32.h:89-105 | the table holds the eight-step registers of the MODBUS polynomial |
| Crc.Crc16.GetModbus | src/shared/crc32.h:107-125 | the bit-by-bit engine computes the bit-serial CRC-16 |
| Crc.Crc16.Update | src/shared/crc32.h:127-129 | one update feeds one byte bit by bit |
| Crc.Crc16.Get | src/shared/crc32.h:149-158 | the table engine gives the 16-bit complement of the other one's result |
| CrcKnown.Poly32Exponents | src/shared/crc32.h:17 | the polynomial of the client has the exponents given in section 8 of RFC 1952, reflected |
| CrcKnown.Poly16Exponents | src/shared/crc32.h:100 | the polynomial of CRC-16 is x^16 + x^15 + x^2 + 1, reflected |
| CrcKnown.CheckValue32 | src/shared/crc32.h:44-53 | the CRC-32 of the nine digits is 0xCBF43926, its published check value |
| CrcKnown.CheckValue16 | src/shared/crc32.h:107-125 | the MODBUS CRC-16 of the nine digits is 0x4B37, its published check value |
| CrcKnown.KnownHeader | src/shared/packet_client.cpp:32-73 | the twenty bytes of a header with magic 1 and one byte of payload, whose checksum is 0x3BE16261, are good |
| PacketClient.FirstHeader | src/shared/packet_client.cpp:96-111 | a whole header at the front of the stream is the first frame's, or the one that fails |
| PacketClient.HeaderInHand | src/shared/packet_client.cpp:96-116 | a header in hand is the first frame's, and its payload is what the buffer starts with |
| PacketClient.PresentByBytes | src/shared/packet_client.cpp:96 | a header is in hand when neither its first four bytes nor the four of its data size are all zero |
| PacketClient.PayloadsInOrder | src/shared/packet_client.cpp:151-162 | one payload for each frame, in their order |
| PacketClient.Client.constructor | src/shared/packet_client.cpp:21-30 | a new client is in the fresh parsing state |
| PacketClient.Client.CheckBuffer | src/shared/packet_client.cpp:94-117 | what becomes of header and buffer with and without a header in hand; a bad checksum returns the client to its fresh state |
| PacketClient.Client.ClearHeader | src/shared/packet_client.cpp:131-135 | magic and size are zeroed, the other fields and the buffer stay |
| PacketClient.Client.ClearPacket | src/shared/packet_client.cpp:120-129 | the packet at the front is dropped, or all that is there of it, and the header with it |
| PacketClient.Client.Look | src/shared/packet_client.cpp:94-117 | on a stream of frames looking at the buffer loses no pending byte, and only a bad header can fail |
| PacketClient.Client.Recv | src/shared/packet_client.cpp:76-92 | a chunk joins the pending bytes, and the answer says whether a packet is complete |
| PacketClient.Client.Deliver | src/tritonn/term_manager.cpp:84-108 | a complete packet is the first frame's; if the caller accepts it in its state it is dropped and the rest of the stream stays, else nothing changes |
| PacketClient.Client.Receive | src/tritonn/term_manager.cpp:70-112 | a chunk delivers exactly the frames it completes, in order and once each, up to the first that is not accepted in the state left by those before it |
| PacketClient.Client.Session | src/shared/packet_client.cpp:76-162 | for any chunking and any caller with a state the packets are the payloads of the frames received in full, in order and once each, up to the first that is not accepted, and the pending bytes are the undelivered end of what has come; a bad header leaves the client fresh |
| PacketClient.Client.RefusedInHand | src/tritonn/term_manager.cpp:84-104 | a packet that was not accepted is still there whole |
| PacketClient.AcceptedIsLoginThenData | src/tritonn/term_manager.cpp:84-193 | the server accepts a list of frames if and only if it is one good login followed by good data |
| PacketClient.Client.ServerSession | src/tritonn/term_manager.cpp:70-193 | what a session with the server delivers is one good login followed by good data, up to the first packet that does not continue it |
| PacketClient.NotRefused | src/tritonn/term_manager.cpp:84-104 | where every frame would be accepted in turn, none is refused |
| PacketClient.Client.Send | src/shared/packet_client.cpp:32-73 | the wire image written is that of a well-formed frame with this magic and payload, version 1.0, no flags and zeros reserved |
| Adler.DeferredModulo | src/shared/adler.c:64-89 | reducing once at the end gives the sums reduced at every byte |
| Adler.Adler32Append | src/shared/adler.c:23-93 | the defined checksum continued over a second piece is that of both |
| Adler.ContinuesExact | src/shared/adler.c:23-93 | what is returned over two pieces is what is returned over the whole if and only if no single byte that does not fit is involved; from reduced sums always |
| Adler.InTwoPieces | src/shared/adler.c:23-93 | two calls over two pieces and one over both give the same result exactly then |
| Adler.AfterOneByteGoesOn | src/shared/adler.c:33-44 | a second sum left unreduced by a single byte is put right by whatever is summed next |
| Adler.NmaxIsLargest | src/shared/adler.c:8-10 | NMAX is the largest block for which reduced sums cannot pass 32 bits |
| Adler.BaseIsPrime | src/shared/adler.c:8 | the modulus is prime |
| Adler.BaseIsLargest | src/shared/adler.c:8 | every number between the modulus and 65536 has a divisor other than 1 and itself |
| Adler.CheckValue | src/shared/adler.c:23-93 | the Adler-32 of the nine digits is 0x091E01DE |
| Adler.NoOverflow | src/shared/adler.c:64-89 | within a block neither sum passes 32 bits, whatever 16-bit halves it starts from |
| Adler.Do1 | src/shared/adler.c:12 | one byte enters both 32-bit sums without wrapping |
| Adler.Block | src/shared/adler.c:65-74 | a block, sixteen bytes at a time with one modulo, gives the reduced sums |
| Adler.Remainder | src/shared/adler.c:76-89 | so does what is left after the last block |
| Adler.Short | src/shared/adler.c:50-62 | so does a buffer shorter than sixteen bytes, with one subtraction for the first sum |
| Adler.OneByteExact | src/shared/adler.c:33-44 | one byte, reduced by subtraction, gives the defined checksum if and only if the second sum stays below twice the base |
| Adler.OneByteFails | src/shared/adler.c:33-44 | from 0xFFFFFFE6 a zero byte does not |
| Adler.OfCrc | src/shared/adler.c:23-93 | the result is the defined Adler-32 if and only if the length is not one or the second sum stays below twice the base; 1 for no buffer |
| BitsArray.BitsArray.Add | src/shared/bits_array.cpp:30-46 | the flag is appended |
| BitsArray.BitsArray.GetNameByBits | src/shared/bits_array.cpp:51-63 | the names of the named flags that share a bit with the value are joined in order |
| BitsArray.BitsArray.GetBit | src/shared/bits_array.cpp:82-95 | the first flag with the name is found, or the error is set; an error met before stops the lookup |
| BitsArray.BitsArray.GetValue | src/shared/bits_array.cpp:100-131 | the tokenizer unites the flags named by the words of the text, up to the first unknown one, which sets the error |
| BitsArray.WordsOfNames | src/shared/bits_array.cpp:58-123 | names joined with separators split into themselves |
| BitsArray.ShownInOrder | src/shared/bits_array.cpp:55-60 | the flags shown are those at increasing places of the table, and the places are all those of named flags that share a bit with the value |
| BitsArray.JoinedNames | src/shared/bits_array.cpp:53-58 | the delimiter stands between each two names and nowhere else |
| BitsArray.WordsExactly | src/shared/bits_array.cpp:108-127 | the words of a text are some words if and only if it is these with spaces and bars around them, in any mixture |
| BitsArray.UnknownWord | src/shared/bits_array.cpp:112-118 | nothing after an unknown word counts |
| BitsArray.ReadBack | src/shared/bits_array.cpp:51-131 | with unique names free of separators, the flags written are the flags read, with no error |
| BitsArray.SingleBitsMasked | src/shared/bits_array.cpp:51-131 | flags of at most one bit give the value masked by the table |
| BitsArray.SeveralBitsFail | src/shared/bits_array.cpp:56 | a flag of several bits comes back with all of them when one was set |
| BitsArray.RoundTripExact | src/shared/bits_array.cpp:51-131 | every value comes back masked by the table if and only if no named flag has two bits |
| BitsArray.WriteThenRead | src/shared/bits_array.cpp:51-131 | written and read back, a value keeps exactly its bits in the table, with no error |

## Left out

- LocalTime.Mktime64: fields that carry the safe year out of 1600..2400 are excluded, because the program's loop may not end there.
- LocalTime.Localtime64R: times whose UTC or local year does not fit `int`, alone or with 1900 added, are excluded (unless the UTC year is refused first), because the program's `int` arithmetic overflows there.
- Time64.Gmtime64R: the asserted range check adds 1900 to an `int` year, which overflows within 1900 of the largest `int`; the model adds without overflow.
- Time64.PassesCheck: takes the check in unbounded integers, as above.
- Time64.Timegm64: the sums are exact integers; that they fit int64 is proved for valid dates only, and the `int` products of hours and minutes are not wrapped.
- JsonParser.ParseText: what the next four lines leave out; that the items of a failed parse are deleted is not modelled.
- JsonParser.ParseNumberAt: fractions, exponents and numbers outside `int` have the outcome "undefined".
- JsonParser.WriteEscape: escapes cut short by the end of the text have the outcome "undefined", because the program reads past it.
- JsonParser.ParseStringAt: the same as JsonParser.WriteEscape; so have literals with an escape that the first pass does not step over whole, although what follows may then fit by chance.
- JsonParser.ParseValueAt: the value and the tree are ghost results; the program's `valuedouble` is not modelled.
- JsonPrinter.PrintItems: keeps the texts of the items as strings where the program keeps pointers to their blocks and measures them again.
- JsonMinify.MinifyInPlace: texts that leave a literal or a block comment open are excluded, because the program then reads past the end.
- JsonBuffer.PrintBuffer.Ensure: sizes are unbounded integers, so the wrap-around of `int` above 2^30 bytes is not modelled.
- JsonList.ReplaceItemInArray: the replaced item is left unlinked; that it is then freed is not modelled.
- PacketClient.Client.Session: frames with an empty payload or a zero magic are excluded, because the code uses zero for "no header yet"; what a caller does in its handlers is a verdict and a new state.
- PacketClient.Client.Send: the magic and the serialized message are parameters; the generated serialization is not part of this model.
- Crc.Crc32.Get: registers are their low 32 bits; on machines with a 64-bit `long` the program's upper bits carry nothing and are dropped by its callers.
- Adler.OfCrc: a null buffer with length one is excluded, because the program then reads through it.
- The real `localtime_r` and `mktime`, daylight saving, and the formatting of dates as text.
- Failing allocations, reference and constant-string flags, item deletion and duplication in cJSON, and look-ups of members by name.
- The TCP classes, threads, logging, configuration, device drivers and the other helpers of `src/shared`, which are I/O or would add only easy members.
