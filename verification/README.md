# Las Marionetas in Dafny

Las Marionetas re-implements parts of a game framework, two image formats, a few POSIX calls and a hashing
tool. This project models nine of its algorithms and proves what they are for. The models follow the code,
branch by branch; where the code and its own comments disagree the code is followed and the difference is
proved.

| file | models |
|---|---|
| `Fnmatch.dfy` | `fnmatch`: what a glob pattern means, and the loop with one backtrack point that decides it |
| `GlobText.dfy` | what patterns match, character by character |
| `RzRandom.dfy` | `cRZRandom`: the 32-bit linear congruential generator and its range reduction |
| `Sha1.dfy` | `SHAEngine`: SHA-1 (FIPS 180-4) as a stream, and the tool that hashes a file |
| `Sha1Example.dfy` | the example of FIPS 180-4, worked out |
| `RzDate.dfy` | `cRZDate`: Gregorian dates and Julian day numbers, in whole numbers and in 32 bits |
| `Targa.dfy` | the Targa row codec, run-length and plain, and its row loops |
| `TargaText.dfy` | which packets the Targa writer chooses |
| `Getopt.dfy` | `getopt`: the state machine of one call, and whole runs |
| `GetoptText.dfy` | what option letters and command lines make of a call |
| `BitmapRle.dfy` | the 8-bit run-length rows of bitmaps |
| `BitmapRead.dfy` | how many of those rows the reader gets to |
| `BitmapEnds.dfy` | which of those rows the writer never gets to the end of |
| `BitmapRow.dfy` | the uncompressed rows of bitmaps, channel widths and masks |
| `BitmapText.dfy` | stored bitmap rows in bytes and numbers |
| `Libgen.dfy` | `basename` and `dirname` |
| `LibgenText.dfy` | what `basename` and `dirname` make of a path, part by part |
| `RzCmdLine.dfy` | `cRZCmdLine`: joining and splitting argument lists |
| `RzCmdLineText.dfy` | splitting and joining in plain characters |
| `CString.dfy`, `Common.dfy` | C strings, bytes, options, and division with its remainder |

Each file goes from meaning to code: first modules of datatypes and functions that say what the result should
be, then lemmas about them, then a module of methods with the loops of the source, each proved against those
functions. The files whose names end in `Text` say what the results are in plain characters, bytes and numbers,
rather than by the helper functions that the models and the methods share. `dafny verify dfyconfig.toml` checks everything.

## What turned out otherwise than promised

- SHA-1: after `Result`, hashing on does not continue the message unless the result was asked for on a block
  boundary (`ShaRuns.ContinuesExactlyOnBoundaries`, `ShaRuns.ResultForgets`); the comment in
  `src/hookproxy/sha1.cpp` says it does. From 2^32 bytes on the length field is not the standard's.
- getopt: an ordinary argument in front of a cluster of letters is passed by and never seen
  (`GetoptRuns.RunIsStablePartition`, `GetoptRuns.ClusterLosesArgument`). Under the two orderings that do not
  permute, the very first call misses a double dash (`GetoptRuns.DoubleDashEndsOptions`), although the text at
  the head of `src/miniposix/getopt/getopt.c` says that it always ends the options.
- getopt: started on a program's name alone, the orderings that do not permute read through a null pointer
  (`GetoptSpec.FaultsExactly`, `GetoptSafety.LoneNameFaults`); a bare dash does the like.
- getopt: a letter past the first of its element whose optional argument is not there is answered for ever
  (`GetoptEnds.RepeatsForEver`), as b is by `prog -ab` (`GetoptEnds.ClusterNeverEnds`). Exactly the runs that
  come to such a letter do not end (`GetoptEnds.RunEndsExactly`, `GetoptEnds.StuckRepeats`,
  `GetoptEnds.ItemsEndExactly`).
- Bitmaps: the compressing writer never ends on rows that leave it 1 or 2 bytes (`BitmapWriter.StuckExactly`),
  and it is the end of the row that leads there (`BitmapEnds.FinishesWithoutStrandingEnd`,
  `BitmapEnds.LongRunBeforeEndHangs`). Every pixel of a 16-bit row is stored as 0
  (`BitmapChannels.HalfwordIsZero`) and read back as black (`BitmapColour.SixteenBitIsBlack`); the header's masks
  fit the stored channels only when they fill 32 bits (`BitmapChannels.FieldsHoldExactly`); the 1 of a
  single-bit channel reads as 0 (`BitmapChannels.RequantisedExactly`). A row made of runs alone gives back 0, and
  the reader goes no further, unless it began at a leftover marker (`BitmapImage.ReadsImageExactly`,
  `BitmapImage.SolidRowsStop`).
- Dates: in 32 bits a number gives the date of the number brought within 2^30 of the epoch
  (`RzDate32.Mdy32Folds`), which is its own exactly up to there (`RzDate32.Mdy32IsExact`,
  `RzDate32.RoundTrip32`).
- `dirname` and `basename` disagree about paths such as `/:x` (`PathLaws.DirnameAndBasename`).
- `cRZCmdLine`: an argument with two blanks or more does not survive joining and splitting, nor do quotes at
  both ends of a word (`CommandLaws.ComesBackExactly`), and empty ones vanish (`CommandLaws.SplitOfPlain`).
- `cRZDate::Previous` wraps for day 0 and for days past 7 (`RzDate32.PreviousOfNone`,
  `RzDate32.PreviousPastWeek`).

## Model

| member | source | states |
|---|---|---|
| Fnmatch.FnMatch | src/miniposix/fnmatch/fnmatch.c:71-76 | `fnmatch` answers 0 exactly when the string can be cut into one piece per token of the pattern, in order, where `*` may take any piece; for every pattern, string and combination of the five flags |
| Fnmatch.Fnmatch1 | src/miniposix/fnmatch/fnmatch.c:78-211 | The loop that remembers only the last `*` terminates on every input and decides that relation |
| Fnmatch.OneRound | src/miniposix/fnmatch/fnmatch.c:89-209 | One trip round the loop keeps "the match is still to be found from here, or after a retry of the remembered star, or not at all" |
| Fnmatch.StarRound | src/miniposix/fnmatch/fnmatch.c:117-147 | Collapsing stars, the shortcuts at the end of the pattern and before `/`, and setting the backtrack point lose no match |
| Fnmatch.BracketRound | src/miniposix/fnmatch/fnmatch.c:148-167 | A bracket takes one character when it is a member, backtracks when it is not, and is an ordinary `[` when it is not closed |
| Fnmatch.LiteralRound | src/miniposix/fnmatch/fnmatch.c:168-206 | A literal moves on when it is equal or folds to the same character, and otherwise retries the remembered star one character on |
| Fnmatch.EndRound | src/miniposix/fnmatch/fnmatch.c:101-106 | At the end of the pattern only the end of the string, or a slash under the leading-directory flag, is a match |
| Fnmatch.AnyRound | src/miniposix/fnmatch/fnmatch.c:107-116 | `?` takes one character that is neither the end, nor a slash or leading dot the flags protect |
| Fnmatch.RangeMatch | src/miniposix/fnmatch/fnmatch.c:224-291 | The bracket scanner finds exactly the members the declared list has, negation included, and where the list ends |
| Glob.ReadItems | src/miniposix/fnmatch/fnmatch.c:249-287 | The list of a bracket moves forward and stays within the pattern |
| GlobLaws.MatchesCons | src/miniposix/fnmatch/fnmatch.c:78-211 | A pattern with a first token matches exactly when some first piece suits it and the rest matches the rest |
| GlobLaws.StarAbsorbs | src/miniposix/fnmatch/fnmatch.c:139-146 | The exchange argument: whatever matches when a star is reached late also matches when it is reached early, so earlier stars can be forgotten |
| GlobLaws.StarStar | src/miniposix/fnmatch/fnmatch.c:118-121 | Consecutive stars mean what one star does |
| GlobLaws.StarThenSlash | src/miniposix/fnmatch/fnmatch.c:133-137 | In pathname mode a star before a slash must reach exactly to the next slash, so no backtrack point is needed |
| GlobLaws.StarLast | src/miniposix/fnmatch/fnmatch.c:127-132 | A final star takes the rest: all of it, or all of it when it has no slash, or up to a slash under the leading-directory flag |
| GlobLaws.Retry | src/miniposix/fnmatch/fnmatch.c:184-205 | Giving the remembered star one more character loses no match, and none is left at the end of the string or at a protected slash |
| GlobLaws.SlashesAlign | src/miniposix/fnmatch/fnmatch.c:110-111 | In pathname mode the slashes of a matched text and the slash tokens of the pattern stand against each other, one for one |
| GlobLaws.QuotedMatchesItself | src/miniposix/fnmatch/fnmatch.c:168-174 | A text with a backslash before every character matches that text and nothing else |
| GlobText.TokensMoved | src/miniposix/fnmatch/fnmatch.c:78-209 | The tokens from any place of a pattern on are those of the rest of it by itself |
| GlobText.MatchMoved | src/miniposix/fnmatch/fnmatch.c:78-211 | So is what they match, as long as a guarded dot does not come to the front |
| GlobText.EmptyText | src/miniposix/fnmatch/fnmatch.c:101-106 | The empty pattern matches the empty string, and under the leading-directory flag anything that begins with a slash |
| GlobText.LiteralFirst | src/miniposix/fnmatch/fnmatch.c:182-187 | An ordinary character in front matches itself, in either case where case is folded, and the rest of the pattern the rest of the string |
| GlobText.EscapedFirst | src/miniposix/fnmatch/fnmatch.c:168-187 | So does any character behind a backslash |
| GlobText.LoneBackslash | src/miniposix/fnmatch/fnmatch.c:170-173 | A backslash that ends the pattern matches nothing |
| GlobText.QuestionFirst | src/miniposix/fnmatch/fnmatch.c:107-116 | `?` in front takes any one character but a guarded slash or dot |
| GlobText.StarFirst | src/miniposix/fnmatch/fnmatch.c:117-147 | `*` in front takes any stretch, in pathname mode without a slash |
| GlobText.DotIsKept | src/miniposix/fnmatch/fnmatch.c:107-125 | Neither takes a dot in front under the period flag |
| GlobText.BracketFirst | src/miniposix/fnmatch/fnmatch.c:148-167 | A list of members and ranges in brackets takes a character that one of them holds, or with `!` or `^` in front one that none does, and never a guarded slash or dot |
| GlobText.OneCharacter | src/miniposix/fnmatch/fnmatch.c:182-187 | A pattern of one character matches it and, where case is folded, the letter that differs from it in case alone |
| GlobText.RangeText | src/miniposix/fnmatch/fnmatch.c:269-284 | `[lo-hi]` matches c exactly when lo <= c <= hi |
| GlobText.FoldedRangeText | src/miniposix/fnmatch/fnmatch.c:241-284 | With case folded a range of small letters holds their capitals too |
| GlobText.MemberText | src/miniposix/fnmatch/fnmatch.c:285-286 | `[a]` matches a alone |
| GlobText.TwoMembersText | src/miniposix/fnmatch/fnmatch.c:251-287 | `[ab]` matches a and b |
| GlobText.TwoRangesText | src/miniposix/fnmatch/fnmatch.c:251-287 | Two ranges match what is in either |
| GlobText.RangeAndMemberText | src/miniposix/fnmatch/fnmatch.c:251-287 | So do a range and a member |
| GlobText.NegatedText | src/miniposix/fnmatch/fnmatch.c:238-290 | With `!` or `^` in front, exactly what is not held |
| GlobText.CloserFirst | src/miniposix/fnmatch/fnmatch.c:252-254 | A closing bracket that comes first is a member |
| GlobText.MinusLast | src/miniposix/fnmatch/fnmatch.c:269 | So is a minus that comes last |
| GlobText.EscapedMember | src/miniposix/fnmatch/fnmatch.c:259-260 | A backslash makes any character a member, or is one where backslashes are plain |
| GlobText.EscapedRange | src/miniposix/fnmatch/fnmatch.c:259-284 | And either end of a range |
| GlobText.UnclosedText | src/miniposix/fnmatch/fnmatch.c:255-256 | A bracket that is not closed is an ordinary character |
| GlobText.SlashInList | src/miniposix/fnmatch/fnmatch.c:257-258 | In pathname mode a slash in a list makes a pattern that matches nothing |
| GlobText.DotsInside | src/miniposix/fnmatch/fnmatch.c:123-125 | A dot further on is ordinary, but not behind a slash in pathname mode |
| RzRandom.Random.constructor | src/framework/rz/rzrandom.cpp:16-20 | Both states start from the seed, the second as a signed number; a seed of all ones asks for a time-based one |
| RzRandom.Random.Seed | src/framework/rz/rzrandom.cpp:22-31 | Reseeding sets both states the same way and nothing else |
| RzRandom.Random.RandomUint32Uniform | src/framework/rz/rzrandom.cpp:33-39 | One step of the generator; the number handed out is bits 16 to 47 of the product |
| RzRandom.Random.RandomUint32Scaled | src/framework/rz/rzrandom.cpp:41-48 | The number is below the scale; a scale of 0 gives 0 and does not advance the generator |
| RzRandom.Random.RandomSint32RangeUniform | src/framework/rz/rzrandom.cpp:50-53 | The number is at least min and below max, for every 32-bit min below max; what wraps when max is the smaller |
| LcgPeriod.DoublingSteps | src/framework/rz/rzrandom.cpp:33-39 | For every k, 2^k steps multiply the state by 1 modulo 2^(k+2) and add an odd multiple of 2^k |
| LcgPeriod.Jump | src/framework/rz/rzrandom.cpp:33-39 | 2^k steps move every state by an odd multiple of 2^k |
| LcgPeriod.Meets | src/framework/rz/rzrandom.cpp:33-39 | Every target is met modulo 2^k within the first 2^k states, for every k |
| LcgPeriod.ComesBack | src/framework/rz/rzrandom.cpp:33-39 | Modulo 2^k a state returns after n steps exactly when 2^k divides n, for every k |
| LcgPeriod.PeriodIsExact | src/framework/rz/rzrandom.cpp:33-39 | From every 32-bit seed the state returns exactly after the multiples of 2^32 steps |
| LcgPeriod.VisitsEveryStateOnce | src/framework/rz/rzrandom.cpp:33-39 | From every seed each of the 2^32 states is visited once and only once in 2^32 steps |
| LcgPeriod.OutputShowsState | src/framework/rz/rzrandom.cpp:35-38 | The low half of an output is the high half of the state that follows |
| LcgPeriod.HalfPeriodShows | src/framework/rz/rzrandom.cpp:33-39 | An odd number of half periods changes the output |
| LcgPeriod.OutputPeriodIsExact | src/framework/rz/rzrandom.cpp:33-39 | The numbers handed out, not only the states, repeat with period 2^32 and no smaller one |
| RzRandom.ScaleIsUniform | src/framework/rz/rzrandom.cpp:47 | The numbers reduced to one value form an interval whose length is 2^32/scale rounded down or up |
| RzRandom.ThresholdIsLeast | src/framework/rz/rzrandom.cpp:47 | Where each of those intervals begins |
| LcgPeriod.StepInNumbers | src/framework/rz/rzrandom.cpp:33-39 | The product is 1103515245 times the state and 12345; the next state is its low 32 bits, the number its bits 16 to 47 |
| LcgPeriod.FirstStates | src/framework/rz/rzrandom.cpp:33-39 | The first states and numbers from the seeds 0 and 1 |
| RzRandom.ScaleIsQuotient | src/framework/rz/rzrandom.cpp:47 | The reduced number is the product by the scale over 2^32, rounded down |
| RzRandom.ConversionsKeepValue | src/framework/rz/rzrandom.cpp:29-30 | Storing a seed as unsigned or signed keeps it modulo 2^32 |
| ShaEngine.Engine.constructor | src/hookproxy/sha1.cpp:21-32 | A new engine has taken in nothing and holds the initial hash value of section 5.3.1 of FIPS 180-4 |
| ShaEngine.ProcessBlock | src/hookproxy/sha1.cpp:165-227 | Process_Block is the compression function of section 6.1.2 of FIPS 180-4 |
| ShaEngine.ExpandBlock | src/hookproxy/sha1.cpp:178-185 | The 80 words it works on are the message schedule |
| ShaEngine.RoundInSourceOrder | src/hookproxy/sha1.cpp:213-218 | One trip round the main loop, in the order the assignments stand, is one round of the standard |
| ShaEngine.MajorityIsMaj | src/hookproxy/sha1.cpp:206 | The source and the standard write Maj differently and mean the same |
| ShaEngine.ChooseIsCh | src/hookproxy/sha1.cpp:198 | Likewise Ch |
| ShaEngine.AssembleIsBigEndian | src/hookproxy/sha1.cpp:179-181 | Adding the four shifted bytes gives the big-endian word |
| ShaEngine.Engine.ProcessPartial | src/hookproxy/sha1.cpp:47-71 | The message block is filled from the front of the data and compressed once full; nothing is lost or taken twice |
| ShaEngine.Engine.DirectBlock | src/hookproxy/sha1.cpp:85-90 | A whole block compressed straight from the caller keeps the account of what was taken in |
| ShaEngine.Engine.Hash | src/hookproxy/sha1.cpp:76-95 | After any call the engine has taken in what it had before followed by the data, whatever its length |
| ShaEngine.Engine.Result | src/hookproxy/sha1.cpp:100-160 | The digest of everything taken in, the same again on a second call; afterwards only the whole blocks are kept |
| ShaEngine.Engine.FinalDigest | src/hookproxy/sha1.cpp:112-153 | The digest is worked out on copies, so the running digest is untouched |
| ShaEngine.Finish | src/hookproxy/sha1.cpp:117-145 | The one or two blocks built at the end compress to what the message with its padding compresses to, for every tail of 0 to 63 bytes |
| ShaEngine.LastBlock | src/hookproxy/sha1.cpp:137-145 | The block that carries the length ends in the eight bytes of the bit count |
| ShaEngine.LengthField | src/hookproxy/sha1.cpp:140-141 | The two 32-bit halves stored are the 64-bit big-endian bit count of a 32-bit byte count |
| ShaEngine.FinishIsPadding | src/hookproxy/sha1.cpp:112-145 | Finishing from the tail is hashing the whole padded message |
| ShaRuns.HashAllAbsorbs | src/hookproxy/sha1.cpp:76-95 | Any sequence of calls leaves the engine having taken in the concatenation of their data |
| ShaRuns.PaddingIsStandard | src/hookproxy/sha1.cpp:114-141 | The padding is that of section 5.1.1 of FIPS 180-4 exactly for messages shorter than 2^32 bytes |
| ShaRuns.ChunksDoNotMatter | src/hookproxy/sha1.cpp:76-160 | However a message below 2^32 bytes is cut into calls, the result is its SHA-1 hash, and asking again gives the same |
| ShaRuns.ContinuesExactlyOnBoundaries | src/hookproxy/sha1.cpp:112-145 | What the engine holds after results is everything handed to it exactly when every result was asked for on a block boundary |
| ShaRuns.BoundaryResultsAreSha1 | src/hookproxy/sha1.cpp:76-160 | As long as every result that hashing went on after came on a block boundary, the digest is the SHA-1 hash of all the data below 2^32 bytes, however often it is asked for since |
| ShaRuns.ResultForgets | src/hookproxy/sha1.cpp:112-145 | One byte, a result, one more byte: the next result is the hash of the second byte alone, although the comment in the source says hashing can be continued |
| Words.Rotates1 | src/hookproxy/sha1.cpp:184 | The two shifts are a rotation by 1 |
| Words.Rotates5 | src/hookproxy/sha1.cpp:213 | by 5 |
| Words.Rotates30 | src/hookproxy/sha1.cpp:216 | and by 30 |
| ShaExample.HashOfAbc | src/hookproxy/sha1.cpp:165-227 | The hash of abc is A9993E36 4706816A BA3E2571 7850C26C 9CD0D89D, the example of FIPS 180-4, worked out round by round |
| ShaRuns.HashFile | src/hookproxy/hasher.cpp:4-19 | Reading a file in blocks of 1024 bytes until one comes up short hashes the file |
| RzDate.DayWithinMonth | src/framework/rz/rzdate.cpp:154-174 | A date is accepted exactly when it is a date of the Gregorian calendar |
| RzDate.NextNumber | src/framework/rz/rzdate.cpp:176-193 | The day after a date has the next Julian day number |
| RzDate.NumberCounts | src/framework/rz/rzdate.cpp:176-193 | A number counts the days since 1 March of year 0 |
| RzDate.MarchYearLength | src/framework/rz/rzdate.cpp:192 | The closed form gives the years that begin on 1 March their 365 or 366 days |
| RzDate.MdyOfJday | src/framework/rz/rzdate.cpp:124-143 | Every date from 1 March of year 0 on comes back from its number, with no bound on the year |
| RzDate.JdayOfMdy | src/framework/rz/rzdate.cpp:124-143 | Every number past the epoch is the number of the date it is turned into, which is a valid one |
| RzDate.NumberIsMonotone | src/framework/rz/rzdate.cpp:176-193 | Numbers order dates as the calendar does |
| RzDate.NumberIsInjective | src/framework/rz/rzdate.cpp:176-193 | Different dates have different numbers |
| RzDate.FromDayOfYearIsThatDay | src/framework/rz/rzdate.cpp:31-38 | The day-of-year constructor lands on the n-th day of that year |
| RzDate.YearZeroIs1901 | src/framework/rz/rzdate.cpp:36 | With year 0 it counts from the start of 1901 |
| RzDate.WeekdaysCycle | src/framework/rz/rzdate.cpp:104-107 | Weekdays run from 1 to 7 and each follows the one before |
| RzDate.KnownSaturday | src/framework/rz/rzdate.cpp:104-107 | They are anchored: 1 January 2000, a Saturday, is day 6 |
| RzDate.PreviousIsThatWeekday | src/framework/rz/rzdate.cpp:109-122 | Previous finds the only one of the last seven days, today included, that is on the weekday asked for |
| RzDate32.PreviousInWeek | src/framework/rz/rzdate.cpp:109-122 | In 32-bit arithmetic Previous finds the same day for the weekdays 1 to 7 |
| RzDate32.PreviousOfNone | src/framework/rz/rzdate.cpp:109-122 | Asked for day 0 it wraps, and goes back to the Sunday before the last |
| RzDate32.PreviousPastWeek | src/framework/rz/rzdate.cpp:109-122 | Asked for a day past 7 it wraps, and goes forward from the start of the week by that many days: to that day counted round the week, or, where the sum wraps as well, four days out |
| RzDate32.Jday32IsExact | src/framework/rz/rzdate.cpp:176-193 | In 32-bit arithmetic a date gets its true number exactly when its year, counted from March, is below 2939900 |
| RzDate32.Mdy32IsExact | src/framework/rz/rzdate.cpp:124-143 | In 32-bit arithmetic a number gets its true date exactly when it is at most 2^30 past the epoch; the difference that dips below zero comes right |
| RzDate32.CenturyFolds | src/framework/rz/rzdate.cpp:126-128 | The century found in 32 bits, and the days into it, are those of the number brought into 1 to 2^30 past the epoch by multiples of 2^30 |
| RzDate32.Mdy32Folds | src/framework/rz/rzdate.cpp:124-143 | In 32-bit arithmetic every number, below the epoch too, gives the date of the number so brought back |
| RzDate32.FarDatesAreLost | src/framework/rz/rzdate.cpp:126-128 | Past the wrap of the century product the date that comes back is at least 2939500 years early |
| RzDate32.RoundTrip32 | src/framework/rz/rzdate.cpp:124-193 | In 32 bits a date comes back from its number exactly when the number is at most 2^30 past the epoch |
| Calendar.NthDayOfYear | src/framework/rz/rzdate.cpp:31-38 | In the day-by-day calendar, the n-th day of a year is n days after the last day of the year before |
| Calendar.LaterIsAfter | src/framework/rz/rzdate.cpp:176-193 | In the day-by-day calendar, some days later is after |
| TargaPixel.StoreLoad | src/gimex/src/targagimex.c:42-232 | A stored pixel gives back what its depth keeps: everything at 32 bits, alpha forced to 255 at 24, five bits a channel at 16, the grey table at 8 |
| TargaPixel.KeptIsStable | src/gimex/src/targagimex.c:410-427 | Above 8 bits, what has been kept once is kept without loss |
| TargaRow.First | src/gimex/src/targagimex.c:286-393 | The packet the writer chooses is of at most 128 pixels, takes at least one, and stands for exactly the pixels it is chosen for |
| TargaRow.OverheadBound | src/gimex/src/targagimex.c:286-393 | A compressed row takes at most one byte for every 128 pixels, rounded up, more than its pixels would: each short literal is paid for by the run that must follow |
| TargaRow.FitsLineBuffer | src/gimex/src/targagimex.c:921 | Three times the pitch and 16 bytes are always enough for a row |
| TargaRow.PacketRoundTrip | src/gimex/src/targagimex.c:54-232 | A packet is read back with the stream left exactly behind it |
| TargaRow.PacketsRoundTrip | src/gimex/src/targagimex.c:54-232 | So are the packets of a whole row |
| TargaRow.RowRoundTrip | src/gimex/src/targagimex.c:42-232 | A stored row, packed or not, gives back its pixels, and the reader stops exactly where the next row begins |
| TargaImage.ImageRoundTrip | src/gimex/src/targagimex.c:770-782 | For every width and height, each row of an image comes back in its own place, the bottom row first in the file |
| TargaImage.SecondPassIsExact | src/gimex/src/targagimex.c:770-782 | Above 8 bits an image that has been through the format comes through it again unchanged |
| TargaCodec.RleCount | src/gimex/src/targagimex.c:252-269 | The run length is that of the model, never above 128, so its byte never overflows |
| TargaCodec.ChoosePacket | src/gimex/src/targagimex.c:287-290 | Run or literal, as the model chooses |
| TargaCodec.ScanLiteral | src/gimex/src/targagimex.c:336-346 | How far a literal reaches |
| TargaCodec.PutPixel | src/gimex/src/targagimex.c:396-436 | A pixel in the byte order of its depth |
| TargaCodec.WriteLine | src/gimex/src/targagimex.c:271-440 | TGA_writeline puts out the model row, within the line buffer |
| TargaCodec.WriteImage | src/gimex/src/targagimex.c:927-935 | The row loop puts out the model image, bottom row first |
| TargaCodec.GetPacket | src/gimex/src/targagimex.c:54-60 | One packet from the stream into the row, if the stream has one and it fits |
| TargaCodec.ReadLine | src/gimex/src/targagimex.c:42-232 | TGA_readline fills the row as the model reads it and leaves the stream behind it, for any stream; ok is false when the bytes run out or a packet runs over |
| TargaCodec.ReadImage | src/gimex/src/targagimex.c:755-782 | The row loop fills the image from the bottom row up, for any stream |
| TargaPixel.StoredNumber | src/gimex/src/targagimex.c:396-436 | The stored bytes, lowest first, are the number of the colour: alpha, red, green and blue from the top down, in eight bits each, or in one and three times five |
| TargaPixel.LoadedNumber | src/gimex/src/targagimex.c:42-232 | Any bytes are loaded as the colour of their number; a five-bit channel c as 255 times c over 31, rounded down |
| TargaRow.PacketHeader | src/gimex/src/targagimex.c:291-350 | The first byte of a packet is 127 more than the length of a run, or 1 less than that of a literal |
| TargaRow.ReadRun | src/gimex/src/targagimex.c:59-122 | Such a byte and a pixel are read as that many pixels |
| TargaRow.ReadLiteral | src/gimex/src/targagimex.c:123-187 | And 1 less than a count, and that many pixels, as those |
| TargaImage.BottomFirst | src/gimex/src/targagimex.c:927-935 | The bottom row is stored first |
| TargaText.RunIsChosen | src/gimex/src/targagimex.c:287-290 | A run is chosen where two pixels are alike, and at 8 bits only with a third like them or two more alike behind |
| TargaText.RunIsLongest | src/gimex/src/targagimex.c:252-269 | It is the longest there is, up to 128 |
| TargaText.LiteralReaches | src/gimex/src/targagimex.c:336-348 | A literal reaches to the first run behind its first pixel, or to 128; one that would leave three pixels or fewer takes them |
| Getopt.ThreeTurnsSwap | src/miniposix/getopt/getopt.c:131-137 | Turning round a block, both blocks, and the new first block swaps two neighbouring blocks and keeps the order inside each |
| Getopt.Parser.ReverseArgvElements | src/miniposix/getopt/getopt.c:119-129 | The stretch is turned round in place, the rest untouched |
| Getopt.Parser.Permute | src/miniposix/getopt/getopt.c:131-137 | The two blocks change places in argv |
| Getopt.Parser.GetoptInternal | src/miniposix/getopt/getopt.c:146-344 | One call, from any state, leaves argv, the indices and the argument exactly as the state machine says, and answers as it says; where the source reads amiss the answer is a fault |
| Getopt.Parser.GetoptWith | src/miniposix/getopt/getopt.c:175-180 | `getopt`: a leading `-` or `+` of the option letters, or else the environment, chooses the ordering, and the call is the state machine's |
| Getopt.Parser.PermutingCall | src/miniposix/getopt/getopt.c:188-205 | Looking for the next option past other arguments, and putting the double dash in front of them |
| Getopt.Parser.ParseLetter | src/miniposix/getopt/getopt.c:264-324 | A letter, its argument attached or next, and where the next letter is |
| Getopt.Parser.MoveOn | src/miniposix/getopt/getopt.c:326-331 | Permuting, or moving the index, once an element is done |
| GetoptSpec.FaultsExactly | src/miniposix/getopt/getopt.c:161-265 | A call reads amiss exactly past the end of an element, after a bare dash, or through the null pointer that ends argv, each told by the guards before it |
| GetoptSafety.NoRunFaults | src/miniposix/getopt/getopt.c:146-344 | No run from the beginning reads amiss, however long, when no argument is a bare dash, the name is no double dash, and there is an argument or the ordering permutes |
| GetoptSafety.LoneNameFaults | src/miniposix/getopt/getopt.c:161-265 | Started on a name alone, a call reads through the null pointer exactly when the ordering does not permute |
| GetoptSafety.CallKeepsSound | src/miniposix/getopt/getopt.c:146-344 | Every call keeps the index at the start of an element, at a letter of one, or past the end |
| GetoptSpec.DecideFits | src/miniposix/getopt/getopt.c:146-344 | Whatever a call decides, the blocks it swaps lie within argv, and so does the index it ends with, if the one it began with did |
| GetoptLaws.CallKeepsAll | src/miniposix/getopt/getopt.c:146-344 | No call loses or invents an argument, in any ordering and from any state |
| GetoptLaws.RunKeepsAll | src/miniposix/getopt/getopt.c:146-344 | Nor does a run of calls |
| GetoptRuns.CallSingle | src/miniposix/getopt/getopt.c:326-331 | A call on an element with one letter moves the element and its argument in front of what was skipped |
| GetoptRuns.CallCluster | src/miniposix/getopt/getopt.c:315-322 | A call on the first of several letters stays inside the element and forgets what was skipped |
| GetoptRuns.RunItems | src/miniposix/getopt/getopt.c:186-331 | Over a run the letters come out in the order of the command line, each with its own argument, and argv ends as the placing function says |
| GetoptRuns.LastCall | src/miniposix/getopt/getopt.c:195-204 | The call that ends the options leaves the index in front of everything skipped |
| GetoptRuns.WholeRun | src/miniposix/getopt/getopt.c:146-344 | From the first call to the end of the options: every letter is answered, and argv and the index end as placed |
| GetoptRuns.RunIsStablePartition | src/miniposix/getopt/getopt.c:186-331 | argv ends as the options with their arguments, then the rest, both in their original order, with the index between, exactly when no cluster of letters comes after an ordinary argument |
| GetoptRuns.SinglesAreInOrder | src/miniposix/getopt/getopt.c:186-331 | In particular when every option has an element of its own |
| GetoptRuns.ClusterLosesArgument | src/miniposix/getopt/getopt.c:315-331 | `prog x -ab`: x ends in front of the index and is never seen |
| GetoptRuns.DoubleDashEndsOptions | src/miniposix/getopt/getopt.c:163-216 | A double dash in the next place ends the options, in every ordering, exactly unless it is the very first call and the ordering is not the permuting one |
| GetoptEnds.RepeatsExactly | src/miniposix/getopt/getopt.c:284-331 | A call answers a letter and changes nothing exactly inside an element, at a letter whose optional argument is not there, when no argument is left over from before |
| GetoptEnds.RepeatsForEver | src/miniposix/getopt/getopt.c:284-292 | From there every later call, however many, answers the same letter |
| GetoptEnds.ClusterNeverEnds | src/miniposix/getopt/getopt.c:284-292 | `prog -ab` with an optional argument to b: in every ordering each call after the first answers b |
| GetoptEnds.ParseLeads | src/miniposix/getopt/getopt.c:265-331 | Parsing a letter leads on to the arguments that the letter leaves to come, through the swap of what was skipped |
| GetoptEnds.CallLeads | src/miniposix/getopt/getopt.c:146-344 | From every sound state and in every ordering, a run is stuck exactly when the next call is not the last and the run is stuck after it |
| GetoptEnds.CallMoves | src/miniposix/getopt/getopt.c:146-344 | A call that is not the last gets to a later argument or a later letter, or has come to a letter that repeats |
| GetoptEnds.RunEndsExactly | src/miniposix/getopt/getopt.c:146-344 | From every sound state, in every ordering and with any letters, known or not, a run comes to an end exactly when the arguments to come do not lead to a letter, past the first of its element, whose optional argument is not there |
| GetoptEnds.StuckRepeats | src/miniposix/getopt/getopt.c:284-292 | A run that does not end comes to a state from which every call answers the same letter |
| GetoptEnds.NoStallEnds | src/miniposix/getopt/getopt.c:146-344 | In particular when no option element to come leads, through unknown letters and letters without an argument, to such a letter |
| GetoptEnds.ItemsEndExactly | src/miniposix/getopt/getopt.c:146-344 | On command lines of options in order and of elements that end in such a letter, a run from the beginning ends exactly when there is no such element, or an ordinary argument ends the options before it |
| GetoptText.RequiredAttached | src/miniposix/getopt/getopt.c:293-299 | A letter with one colon after it takes the rest of its element for its argument, less a `=` in front |
| GetoptText.RequiredSeparate | src/miniposix/getopt/getopt.c:293-313 | With nothing there, the next argument |
| GetoptText.RequiredMissing | src/miniposix/getopt/getopt.c:300-309 | With no next argument, it is missing |
| GetoptText.OptionalLetter | src/miniposix/getopt/getopt.c:284-292 | A letter with two colons takes only the rest of its element |
| GetoptText.PlainLetter | src/miniposix/getopt/getopt.c:315-331 | A letter with none takes no argument, and the call goes on to the next letter or past the element |
| GetoptText.UnlistedLetter | src/miniposix/getopt/getopt.c:265-276 | A character that is not among the letters is unknown, and passed likewise |
| GetoptText.SeparateArgument | src/miniposix/getopt/getopt.c:146-344 | `name -c text`, c with a colon after it: c with text, and the index at 3 |
| GetoptText.NoArgumentLeft | src/miniposix/getopt/getopt.c:300-309 | `name -c` alone: missing |
| GetoptText.AttachedArgument | src/miniposix/getopt/getopt.c:293-299 | `name -ctext` and `name -c=text`: c with text, and the index at 2 |
| GetoptText.NoSeparateArgument | src/miniposix/getopt/getopt.c:284-292 | `name -c text`, c with two colons: c without an argument, and the index at 2 |
| GetoptText.OrdinaryFirst | src/miniposix/getopt/getopt.c:174-216 | An ordinary argument first: answered itself where the letters begin with `-`, the end of the options where they begin with `+` or the environment asks for it, and otherwise passed |
| GetoptText.OptionPassesOrdinary | src/miniposix/getopt/getopt.c:186-331 | `name x -c`: the element moves in front of x |
| GetoptText.ArgumentPassesOrdinary | src/miniposix/getopt/getopt.c:186-331 | `name x -c text`: the element and its argument do |
| BitmapPackets.PacketsAreEven | src/gimex/src/bitmapgimex.c:310-347 | Every packet takes an even number of bytes |
| BitmapReader.ReadsRow | src/gimex/src/bitmapgimex.c:71-159 | The packets of a row are read to the last, and the marker after them is left alone |
| BitmapReader.MarkerIsIgnored | src/gimex/src/bitmapgimex.c:155-157 | A marker before any pixel is read over |
| BitmapReader.DropMarker | src/gimex/src/bitmapgimex.c:249-251 | The bytes dropped to reach a multiple of four are none, or exactly the end-of-line marker |
| BitmapReader.ReadLineResyncs | src/gimex/src/bitmapgimex.c:68-159 | From either place a row may begin at, the row is read and the reader ends at one of the same two places before the next |
| BitmapReader.ReadsEveryRow | src/gimex/src/bitmapgimex.c:68-159 | Successive calls recover every row of any stream of well-formed rows, whatever packets they are made of |
| BitmapImage.RowAnswers | src/gimex/src/bitmapgimex.c:113-157 | The result of reading a row is not 0 exactly when the row has a literal, or is read from the marker that the row before left over |
| BitmapImage.ReadsReached | src/gimex/src/bitmapgimex.c:770-791 | The row loop of BMP_read reads the rows in order up to the first whose result is 0, and that one |
| BitmapImage.ReadsImageExactly | src/gimex/src/bitmapgimex.c:770-791 | It reads every row exactly when each but the last has a literal or is read from a marker left over, which the bytes of the rows before decide |
| BitmapImage.SolidRowsStop | src/gimex/src/bitmapgimex.c:770-791 | Of two rows of one run each the second is not read |
| BitmapLoop.ReadImage | src/gimex/src/bitmapgimex.c:770-791 | The rows that are read stand in their places, from the bottom up or from the top down, and the others are as they were |
| BitmapWriter.StuckExactly | src/gimex/src/bitmapgimex.c:294-350 | A trip of the compressing loop moves nothing exactly when a row of 3 bytes or more has 1 or 2 left |
| BitmapWriter.PassIsValid | src/gimex/src/bitmapgimex.c:294-350 | A trip that moves writes one well-formed packet of the next bytes |
| BitmapWriter.PacketsArePixels | src/gimex/src/bitmapgimex.c:289-353 | The packets of a row the writer gets through stand for that row |
| BitmapEnds.StrandsAtEnd | src/gimex/src/bitmapgimex.c:294-350 | A trip leaves 1 or 2 bytes only where the row ends in x x x y, x x y y, x x x y z, or at the limits of 255 to a run and 254 to a literal |
| BitmapEnds.FinishesWithoutStrandingEnd | src/gimex/src/bitmapgimex.c:289-353 | A row of any length without such an end is written to its end |
| BitmapEnds.LongRunBeforeEndHangs | src/gimex/src/bitmapgimex.c:289-353 | Whatever stands in front, a run of 8 to 255 that ends 1 or 2 bytes before the row does keeps the writer in its loop for ever |
| BitmapEnds.EndDecides | src/gimex/src/bitmapgimex.c:289-353 | Where the end decides, the run before it being 8 long or the rest of the row, the writer gets to the end of the row exactly when it has no such end |
| BitmapEnds.RunAndOneHangs | src/gimex/src/bitmapgimex.c:299-313 | x, r times, and y hangs for every r from 3 to 255 |
| BitmapEnds.RunAndTwoHangs | src/gimex/src/bitmapgimex.c:299-313 | x, r times, and two more hangs likewise, and from r of 2 on if the two are alike |
| BitmapEnds.SolidFinishesExactly | src/gimex/src/bitmapgimex.c:256-313 | A row of n bytes alike, 3 or more, is written exactly when n leaves neither 1 nor 2 over 255s |
| BitmapEnds.LongLiteralHangs | src/gimex/src/bitmapgimex.c:317-332 | A row of 255 or 256 bytes that no run breaks up hangs, as the literal stops at 254 |
| BitmapEnds.ShortRunsDepend | src/gimex/src/bitmapgimex.c:299-332 | For shorter runs it depends on what stands in front: x x x y hangs, and three other bytes in front of it save it |
| BitmapEnds.SolidEndFinishes | src/gimex/src/bitmapgimex.c:289-353 | A row of up to 254 bytes whose last three are alike is always written |
| BitmapWriter.RunOfFourAndOneHangs | src/gimex/src/bitmapgimex.c:299-313 | Four bytes alike and one more: the writer stays at the last byte for ever |
| BitmapWriter.WriteThenRead | src/gimex/src/bitmapgimex.c:289-353 | All rows the writer gets through come back one for one, wherever the alignment falls |
| BitmapCodec.ReadLineInto | src/gimex/src/bitmapgimex.c:68-159 | BMP_readline on packed bytes fills the front of the row as the model reads it, leaves the rest of it alone, leaves the stream where the model does, and gives back 0 when it should |
| BitmapCodec.TakeFront | src/gimex/src/bitmapgimex.c:72-158 | One packet or marker |
| BitmapCodec.CountRun | src/gimex/src/bitmapgimex.c:256-269 | BMP_runcount |
| BitmapCodec.LiteralStops | src/gimex/src/bitmapgimex.c:318-323 | Whether a literal stops for the run after it; the second run is measured from the wrong place |
| BitmapCodec.ScanLiteral | src/gimex/src/bitmapgimex.c:317-332 | How far a literal goes |
| BitmapCodec.ChoosePacket | src/gimex/src/bitmapgimex.c:295-350 | Run, literal or neither, as the model chooses |
| BitmapCodec.RowFits | src/gimex/src/bitmapgimex.c:959 | A compressed row takes at most two bytes a pixel and two more, so it fits the line buffer |
| BitmapCodec.WriteLine | src/gimex/src/bitmapgimex.c:289-353 | BMP_writeline, compressing, gets stuck exactly when the model says so, and otherwise puts out the model row within the buffer |
| BitmapFields.PitchIsPadded | src/gimex/src/bitmapgimex.c:162 | The length the writer pads a row to is the length the reader takes, for every width and depth |
| BitmapFields.HoldsIsUnique | src/gimex/src/bitmapgimex.c:376-422 | What a stored row holds settles every byte of it, padding included |
| BitmapIndexed.WriteBits | src/gimex/src/bitmapgimex.c:403-415 | The 1-bit case sets each bit in its place and no other |
| BitmapIndexed.WriteNibbles | src/gimex/src/bitmapgimex.c:390-402 | The 4-bit case likewise |
| BitmapIndexed.WriteIndexed | src/gimex/src/bitmapgimex.c:387-422 | A row at 1, 4 or 8 bits holds every pixel, reduced to its bits, in its place, and zeros after them |
| BitmapIndexed.ReadIndexed | src/gimex/src/bitmapgimex.c:167-189 | The reader takes each pixel from that place, at each of the three depths |
| BitmapIndexed.ThereAndBack | src/gimex/src/bitmapgimex.c:160-189 | A row there and back at 1, 4 or 8 bits: every pixel reduced to its bits |
| BitmapIndexed.BitGoesIn | src/gimex/src/bitmapgimex.c:408 | Or-ing a bit into a byte clear from there on changes that bit alone |
| BitmapColour.WriteColours | src/gimex/src/bitmapgimex.c:354-422 | A row at 16, 24 or 32 bits, of any channel widths, is its pixels in the byte order of the depth, then zeros up to the pitch |
| BitmapColour.ReadColours | src/gimex/src/bitmapgimex.c:190-244 | The reader takes each pixel from its place, through the masks of its header |
| BitmapColour.StoredAt | src/gimex/src/bitmapgimex.c:380-386 | Pixel k stands at k times the size of a pixel |
| BitmapColour.PixelComesBack | src/gimex/src/bitmapgimex.c:357-386 | A pixel comes back exactly at 32 bits of four full channels, and opaque at 24 |
| BitmapColour.SixteenBitIsBlack | src/gimex/src/bitmapgimex.c:217-373 | Whatever was written, every pixel of a 16-bit row is read back as black |
| BitmapColour.ThereAndBack | src/gimex/src/bitmapgimex.c:160-244 | A row there and back: every pixel in its place, as its layout keeps it |
| BitmapChannels.RequantisedExactly | src/gimex/src/bitmapgimex.c:226-240 | A channel of 1 to 8 bits that was read is written back without loss, except the 1 of a single bit, which the reader brings to 256 and so to 0 |
| BitmapChannels.FullFields | src/gimex/src/bitmapgimex.c:226-240 | Four full channels are taken apart again by their masks |
| BitmapChannels.FieldsHoldExactly | src/gimex/src/bitmapgimex.c:359-364 | The masks in the header find every channel of every pixel exactly when the widths fill the 32-bit word |
| BitmapChannels.HalfwordIsZero | src/gimex/src/bitmapgimex.c:363-373 | At 16 bits or less in all, the half of the word that is stored is 0 for every pixel |
| BitmapMasks.MaskOffset | src/gimex/src/bitmapgimex.c:37-49 | BMP_maskoffset finds the lowest bit set of any mask: it is set, and the mask is clear below it |
| BitmapMasks.GetBits | src/gimex/src/bitmapgimex.c:19-35 | BMP_getbits counts the ones from there: they are all ones, and the next bit is none |
| BitmapMasks.LowestBit | src/gimex/src/bitmapgimex.c:37-49 | The offset of a mask is the place of its lowest bit |
| BitmapMasks.OnesThenZero | src/gimex/src/bitmapgimex.c:28-31 | The ones counted are all that stand together there |
| BitmapMasks.MaskFound | src/gimex/src/bitmapgimex.c:19-49 | So a mask of any number of ones at any place is read for what it is |
| BitmapText.ReadRunBytes | src/gimex/src/bitmapgimex.c:71-98 | A count and a value are read as that many pixels |
| BitmapText.ReadLiteralBytes | src/gimex/src/bitmapgimex.c:113-148 | A zero, a count and that many values, padded to be even, are read as those |
| BitmapText.ReadAfterMarker | src/gimex/src/bitmapgimex.c:113-157 | A marker in front is read over |
| BitmapText.SolidBytes | src/gimex/src/bitmapgimex.c:299-313 | 4 to 255 bytes alike are stored as their count, one of them and the marker |
| BitmapText.ThreeBytes | src/gimex/src/bitmapgimex.c:314-350 | Three bytes, whatever they are, are stored as they stand, with one more to make them even |
| BitmapText.RunIsTaken | src/gimex/src/bitmapgimex.c:295-313 | A run is taken exactly when it and the next come to 4 bytes or more |
| BitmapText.LiteralReaches | src/gimex/src/bitmapgimex.c:317-332 | A literal goes on by two bytes from 4 to where 5 are alike, or 3 and 5 of them that far from its beginning, or to 254; one that would leave two or fewer takes them |
| BitmapText.StoredBits | src/gimex/src/bitmapgimex.c:403-415 | At 1 bit a byte is 128 times the first of its eight pixels, 64 times the second, and so on |
| BitmapText.StoredNibbles | src/gimex/src/bitmapgimex.c:390-402 | At 4 bits it is 16 times the first of its two and the second |
| BitmapText.StoredIndices | src/gimex/src/bitmapgimex.c:387-389 | At 8 bits it is the pixel |
| BitmapText.PitchIsLeast | src/gimex/src/bitmapgimex.c:162 | The pitch is the least multiple of 4 bytes with room for the row |
| BitmapText.NarrowIsNearest | src/gimex/src/bitmapgimex.c:359-362 | A channel is brought to the nearest step of its scale |
| BitmapText.WidenIsNearest | src/gimex/src/bitmapgimex.c:226-240 | And back to the nearest of 0 to 255, but for the wrap of a single bit |
| BitmapText.StoredColour | src/gimex/src/bitmapgimex.c:354-386 | A pixel is stored as blue, green, red and, at 32 bits, alpha |
| BitmapText.LoadedColour | src/gimex/src/bitmapgimex.c:190-244 | And loaded as those |
| BitmapText.WordOf565 | src/gimex/src/bitmapgimex.c:359-364 | Five, six and five bits stand at the top of the word |
| BitmapText.LoadedOf565 | src/gimex/src/bitmapgimex.c:217-244 | And are read from the bottom of it |
| Libgen.BasenameOf | src/miniposix/libgen/libgen.c:29-125 | basename returns the last component, `/` when there are only separators, `.` when there is nothing |
| Libgen.ScanBasename | src/miniposix/libgen/libgen.c:65-81 | The scan finds the last component and blanks out exactly the separators after it, within the copy of the path |
| Libgen.StripEnd | src/miniposix/libgen/libgen.c:77-79 | Only separators are overwritten |
| Libgen.DirnameOf | src/miniposix/libgen/libgen.c:127-263 | dirname returns the directory of the model, drive, single components and bare separators included |
| Libgen.ScanDirname | src/miniposix/libgen/libgen.c:174-191 | The scan finds the last component and changes nothing |
| Libgen.Backtrack | src/miniposix/libgen/libgen.c:199-205 | Back over the separators before the last component, keeping two alike at the front |
| Libgen.TidyFrom | src/miniposix/libgen/libgen.c:208-212 | Where collapsing starts: after exactly two separators alike, or at the front |
| Libgen.Collapse | src/miniposix/libgen/libgen.c:216-223 | Repeated separators are squeezed in place, the writing place never passing the reading place |
| Libgen.Bare | src/miniposix/libgen/libgen.c:232-242 | One separator or a dot where there is no directory |
| PathLaws.LastComponent | src/miniposix/libgen/libgen.c:60-100 | A path is what stands before its last component, the component, and separators |
| PathLaws.SqueezeKeepsComponents | src/miniposix/libgen/libgen.c:216-223 | Squeezing separators changes no component |
| PathLaws.DirnameComponents | src/miniposix/libgen/libgen.c:192-228 | The components of the directory are those before the last |
| PathLaws.DirnameAndBasename | src/miniposix/libgen/libgen.c:29-263 | With a separator before its last component, a path has the components of its dirname followed by its basename, drive or no drive, exactly unless it is one component after a separator with a colon next, as in `/:x` |
| PathLaws.BasenameAfterColon | src/miniposix/libgen/libgen.c:53-56 | basename takes any second character `:` for a drive, which dirname does not after a separator |
| PathLaws.TidyForm | src/miniposix/libgen/libgen.c:206-223 | No two separators come together but two alike at the front, and those exactly when just those two were there before |
| PathLaws.DirnameForm | src/miniposix/libgen/libgen.c:192-228 | The same of dirname, for every path with a directory; and it ends in a separator only when it is all separators after the drive |
| PathLaws.DirnameIsShorter | src/miniposix/libgen/libgen.c:192-228 | Each step up is to a shorter path |
| PathText.BasenameOfName | src/miniposix/libgen/libgen.c:29-100 | basename gives the name a path ends in, whatever stands in front, after any two characters with a colon second, and however many separators follow |
| PathText.BasenameOfSeparators | src/miniposix/libgen/libgen.c:101-108 | Separators alone give `/` |
| PathText.BasenameOfNothing | src/miniposix/libgen/libgen.c:118-122 | Nothing, or a drive alone, gives `.` |
| PathText.DirnameOfName | src/miniposix/libgen/libgen.c:232-242 | dirname gives `.` for a name with nothing in front but a drive, after that drive |
| PathText.DirnameOfSeparators | src/miniposix/libgen/libgen.c:147-242 | Separators alone give one of them, except two alike, which stay |
| PathText.DirnameOfNothing | src/miniposix/libgen/libgen.c:251-259 | Nothing, or a drive alone, gives `.` |
| PathText.DirnameOfPath | src/miniposix/libgen/libgen.c:192-228 | Otherwise what stands in front of the name, less the separators between them |
| PathText.DirnameSqueezes | src/miniposix/libgen/libgen.c:216-223 | Separators next to each other in it become the first of them |
| PathText.DirnameOfRoot | src/miniposix/libgen/libgen.c:199-213 | Separators alone in front of a name come to one, or stay where they are two alike and there is no drive |
| PathText.DirnameOfShare | src/miniposix/libgen/libgen.c:206-213 | Two alike in front of all the rest stay |
| RzCmdLine.SplitText | src/framework/rz/rzcmdline.cpp:320-377 | The splitting loop cuts the trimmed text at blanks outside quotes and takes off the quotes around each argument |
| RzCmdLine.StripQuotes | src/framework/rz/rzcmdline.cpp:336-343 | Taking off the quotes; a quote by itself counts as both |
| RzCmdLine.JoinArguments | src/framework/rz/rzcmdline.cpp:379-404 | The arguments, quoted, with one space between |
| RzCmdLine.QuoteArgument | src/framework/rz/rzcmdline.cpp:384-398 | One quote in front for every blank in the argument, one behind if there was any |
| RzCmdLine.CmdLine.FromText | src/framework/rz/rzcmdline.cpp:20-23 | A command line from text keeps the text and splits it |
| RzCmdLine.CmdLine.FromArguments | src/framework/rz/rzcmdline.cpp:25-32 | A command line from arguments keeps them and joins them |
| RzCmdLine.CmdLine.InsertArgument | src/framework/rz/rzcmdline.cpp:295-309 | The argument goes in at the place asked for, kept within the list, and the text follows |
| RzCmdLine.CmdLine.EraseArgument | src/framework/rz/rzcmdline.cpp:311-318 | The argument goes, the text follows, and the answer is always no |
| RzCmdLine.Reread | src/framework/rz/rzcmdline.cpp:320-404 | A command line of any arguments, read again from its own text, has the same arguments exactly when it is one empty one, or has some, none is empty, and each is given back by its text |
| CommandLaws.WholeIsOneToken | src/framework/rz/rzcmdline.cpp:320-404 | An argument is one token that unquotes to it if it is a word without quotes at both ends, or two words the first of which has an even number of quotes, and has an even number in all unless it is the last |
| CommandLaws.BrokenIsSeen | src/framework/rz/rzcmdline.cpp:320-404 | Any other argument is not what its first token unquotes to |
| CommandLaws.QuotedPrefix | src/framework/rz/rzcmdline.cpp:384-398 | However much of the text of an argument with blanks is taken, it unquotes to the argument only if there is one blank and it is all taken |
| CommandLaws.SplitOfPlain | src/framework/rz/rzcmdline.cpp:320-404 | For quote-free arguments with at most one blank each, joining and splitting gives back those that are not empty, or one empty argument |
| CommandLaws.JoinSpaces | src/framework/rz/rzcmdline.cpp:379-404 | The text of a list has the blanks of its arguments and one between two of them |
| CommandLaws.PartsSpaces | src/framework/rz/rzcmdline.cpp:320-377 | What text is cut into, joined again, has no more blanks than the text |
| CommandLaws.BackIsWhole | src/framework/rz/rzcmdline.cpp:320-404 | A list that ends in an argument comes back only if none is empty and each is given back |
| CommandLaws.ComesBackExactly | src/framework/rz/rzcmdline.cpp:320-404 | Any list, with quotes and blanks in its arguments or not, comes back from its own text exactly when it is one empty argument, or has an argument, none is empty, and each is given back by its text |
| CommandLaws.QuoteFreeComesBackExactly | src/framework/rz/rzcmdline.cpp:320-404 | Without quotes: exactly when it is one empty argument, or has an argument, none is empty, and none has more than one blank |
| CommandLaws.WordsComeBackExactly | src/framework/rz/rzcmdline.cpp:320-404 | Without blanks or empty arguments: exactly when no argument has a quote at both ends and each but the last has an even number of quotes |
| CommandWords.SplitWords | src/framework/rz/rzcmdline.cpp:320-377 | Text splits into its words, wherever newlines, tabs and spaces stand between and around them |
| CommandWords.SplitTwo | src/framework/rz/rzcmdline.cpp:331-352 | One newline, tab or space between two words is enough |
| CommandWords.SplitQuoted | src/framework/rz/rzcmdline.cpp:336-343 | Text between two quotes is one argument |
| CommandWords.SplitLoneQuote | src/framework/rz/rzcmdline.cpp:336-343 | A quote alone is an empty argument, and so is no text |
| CommandWords.SplitOpenQuote | src/framework/rz/rzcmdline.cpp:331-376 | A quote that is not closed takes the rest of the text, and stays |
| CommandWords.JoinWords | src/framework/rz/rzcmdline.cpp:379-404 | Words are joined with one space between |
| CommandWords.JoinBlank | src/framework/rz/rzcmdline.cpp:384-398 | An argument with one newline, tab or space stands between two quotes |
| CommandWords.JoinTwoBlanks | src/framework/rz/rzcmdline.cpp:384-398 | One with two has two quotes in front |

## Left out

- Fnmatch.FnMatch: characters are single code units compared by number, and case folding is that of the C locale; multibyte decoding and collation are left out.
- RzRandom.Random.Seed: the clock is a parameter, and the floating-point numbers drawn from the second state are left out.
- RzRandom: `cRZRandomSuper` is left out; its `Reload` reads one element past its table, so it does not follow the usual recurrence.
- ShaEngine.Engine.Hash: a null pointer or a negative length is left out, as are `Print_Result` and the wiping destructor.
- RzDate.MdyOfJday: January and February of year 0, where the adjusted year wraps, are left out, as are `DateString` and the constructors that ask the clock.
- RzDate.PreviousIsThatWeekday: the weekdays 0 and past 7, which wrap, are in `RzDate32.PreviousOfNone` and `RzDate32.PreviousPastWeek`; day numbers too small for the days asked back, and the last 32-bit number, wrap as well and are left out.
- TargaCodec.ReadLine: for a stream that ends early or runs over the row it gives up, where the source goes on with what is in its buffer.
- TargaCodec.GetPacket: the same.
- TargaCodec.PutPixel: a 32-bit pixel written at 8 bits is left out, as in `TargaCodec.WriteLine`.
- TargaCodec.WriteLine: 8-bit output from 32-bit pixels is left out, where runs are looked for one byte at a time.
- TargaCodec.ReadImage: rows stored top-down or right to left are left out, as are the header, the palette and the stream itself; no writer in the source makes such files.
- Getopt.Parser.GetoptInternal: long options, the messages on stderr, `optopt`, and null arguments are left out; what the source does after reading amiss is not modelled beyond the answer Fault.
- GetoptRuns.RunIsStablePartition: the runs are of known letters with their arguments; unknown letters and missing arguments are covered by `GetoptLaws.RunKeepsAll`.
- BitmapCodec.ReadLineInto: a stream that ends early, or a packet that runs over the row, is a failure here, where the source goes on; rows packed at 1, 4 or 24 bits are left out.
- BitmapCodec.WriteLine: the line buffer is taken to begin at an even address, since the source pads by the parity of the address.
- BitmapEnds.EndDecides: where a run of 2 to 7 with other bytes in front of it stands before the last 1 or 2, no condition on the end decides (`BitmapEnds.ShortRunsDepend`); there only the trips of the loop tell.
- BitmapLoop.ReadImage: the headers, the palette and the seek to the first row, whose result is taken not to be 0, are left out.
- BitmapCodec.TakeFront: as for `BitmapCodec.ReadLineInto`, a short stream is a failure, and the depths 1, 4 and 24 are left out.
- BitmapIndexed.WriteBits: or-ing is modelled as adding, which is the same on clear bits (`BitmapIndexed.BitGoesIn`).
- BitmapColour.ReadColours: 15 bits a pixel, where the reader steps by 4 bytes, masks with gaps, and a short read are left out.
- BitmapChannels.HalfwordIsZero: a shift by all 32 places, which C leaves undefined when there are no alpha bits, is taken to give 0.
- Libgen.BasenameOf: the locale conversions are the identity, and a null path is left out.
- RzCmdLine.CmdLine.EraseArgument: an index below 0 or past the end, for which the source erases at the end of the vector, must not be passed.
- RzCmdLine: finding arguments and switches is left out; it would only add simple searches.
- In-place buffers of the two codecs' readers are sequences with a position; the arrays written are arrays.
- The hooks, the proxy library, the JPEG and PNG codecs, streams, memory, and the interface headers are calls into code outside the repository, or declarations.
