# go-pwnedpasswords in Dafny

A model of the lookup core of `go-pwnedpasswords`, a Go client for the Pwned
Passwords range API, and of the number formatting in its vendored
`humanize-go` package.

The client never sends a password or its full hash. It takes the SHA-1 digest
of the password and writes it as 40 upper-case hex characters. It sends the
first 5 characters (the prefix) to the service, and the service answers with
one `SUFFIX:COUNT` line for each known hash that starts with that prefix. The
client keeps each line that has exactly one `:` and a count `strconv.Atoi`
accepts. It reports an error when no line is kept. The result is the count of
the first line whose suffix equals the local 35-character suffix, or 0 when
no line matches. If the request fails, the status is not 200, or no line is
kept, `Check` returns -1 and an error.

`humanize-go` adds English ordinal suffixes (`1st`, `12th`, `42nd`) and
thousands separators (`1,234,567`) to 64-bit integers.

Modules:

- `Wrappers` (`wrappers.dfy`): `Option` and `Result`.
- `GoInt` (`go_int.dfy`): the `int64` and `uint64` ranges, two's-complement
  wrap-around, and the `uint64(x)` conversion.
- `Decimal` (`decimal.dfy`): decimal text of integers (`strconv.FormatInt`,
  `FormatUint`, `%d`) and `strconv.Atoi`, as specification functions with
  their round trips.
- `Lines` (`lines.dfy`): `bufio.ScanLines` and `strings.Split` with a
  one-character separator, with their round trips.
- `HashSplit` (`hash_split.dfy`): `%X` hex encoding of the digest and
  `HashPassword`.
- `Client` (`client.dfy`): `readHashes` as a loop, the status check of
  `getHashes`, the matching loop of `Check`, and `Check` itself.
- `Humanize` (`humanize.dfy`): `abs`, `ordinality`, the `Ordinal*`
  functions, and the comma-grouping loop of `commaInt64` and `commaUint64`
  over an array, proved against the specification function `Group`.

The network is a parameter `service: string -> Reply` that maps the request
URL to a reply. A reply is either `Failed(reason)` or `Reply(status, body)`.
SHA-1 is also a parameter: `HashPassword` and `Check` take the 20-byte
digest. The two copies of the comma loop in `numbers.go` (lines 79-109 and
149-179) are the same code, so they are modelled once, as
`Humanize.FillGrouped`.

`Check` reports how often a password occurs, but the count is read with
`strconv.Atoi`, which also accepts a leading `-` or `+`. So a line such as
`X:-1` is kept with count -1, and the model keeps it too.
`Client.ParseLineFormatted` covers negative counts as well.

## Model

| member | source | states |
|---|---|---|
| GoInt.WrapInt64 | vendor/github.com/theckman/humanize-go/numbers.go:13 | int64 arithmetic is exact modulo 2^64 and unchanged when the exact value is in range |
| GoInt.Uint64Of | vendor/github.com/theckman/humanize-go/numbers.go:13-16 | `uint64(x)` is congruent to x modulo 2^64 and equals x when x is non-negative |
| Decimal.Digits | vendor/github.com/theckman/humanize-go/numbers.go:137 | the decimal text of n is non-empty, all digits, without a leading zero, a single digit exactly when n < 10, and ends in the digit n % 10 |
| Decimal.FormatInt | vendor/github.com/theckman/humanize-go/numbers.go:41 | the signed decimal text of i starts with '-' exactly when i is negative, and the rest is digits whose value is the magnitude of i |
| Decimal.Atoi | client.go:137 | an accepted count lies in the int64 range and its text ends in a digit |
| Decimal.AtoiShortDigits | client.go:137 | every unsigned digit string of 1 to 18 digits is accepted with its value |
| Decimal.ValueOfDigits | vendor/github.com/theckman/humanize-go/numbers.go:58 | reading the decimal text of n gives back n |
| Decimal.DigitsValueOf | vendor/github.com/theckman/humanize-go/numbers.go:58 | a digit string without a leading zero is the decimal text of its value |
| Decimal.AtoiFormatInt | client.go:137 | Atoi reads back the signed decimal text of every int64 |
| Lines.ScanLines | client.go:131-133 | scanned lines hold no newline, and an empty body yields no line and only an empty body does |
| Lines.DropCR | client.go:133 | a token loses one trailing carriage return when it ends in one, and is otherwise unchanged |
| Lines.ScanLinesCons | client.go:133 | a newline-terminated first line is scanned as that line without its trailing CR, followed by the lines of the rest |
| Lines.ScanTerminated | client.go:133 | scanning newline-terminated lines with no CR at the end gives those lines back in order |
| Lines.Split | client.go:134 | there is at least one piece and no piece holds the separator |
| Lines.SplitCount | client.go:134-136 | Split gives one more piece than the separators in the text, so two pieces means exactly one ':' |
| Lines.JoinSplit | client.go:134 | joining the pieces with the separator gives back the text |
| Lines.SplitCons | client.go:134 | a leading piece without the separator comes out first, followed by the pieces of the rest |
| Lines.SplitJoin | client.go:134 | Split undoes Join when no piece holds the separator |
| HashSplit.HexChar | client.go:165 | each nibble is written as a character in 0-9 or A-F |
| HashSplit.HexValue | client.go:165 | each upper-case hex character is written by exactly one nibble |
| HashSplit.HexEncode | client.go:165 | `%X` writes two characters per byte |
| HashSplit.HexEncodeIsHex | client.go:165 | `%X` writes only 0-9 and A-F |
| HashSplit.HexEncodeAt | client.go:165 | character k is the high nibble of byte k/2 when k is even and its low nibble when k is odd |
| HashSplit.HexCharInjective | client.go:165 | two nibbles are written the same exactly when they are equal |
| HashSplit.HexDecode | client.go:165 | reading hex text back gives one byte per two characters |
| HashSplit.HexRoundTrip | client.go:165 | the hex text of a digest decodes back to the digest |
| HashSplit.HashPassword | client.go:160-168 | the prefix has 5 characters, the suffix 35, and together they are the hex text of the digest |
| HashSplit.HashPasswordLossless | client.go:160-168 | prefix and suffix are upper-case hex and decode together to the digest |
| HashSplit.PrefixRevealsTwentyBits | client.go:160-168 | two digests have the same prefix exactly when they agree on their first 20 bits |
| HashSplit.PrefixOfDigest | client.go:165-167 | the prefix is the hex text of the first two and a half bytes |
| HashSplit.KnownPrefixes | client_test.go:70-71 | a digest starting DA 39 A3 has prefix DA39A, and one starting 5B AA 61 has prefix 5BAA6 |
| Client.ParseLine | client.go:134-142 | a kept record's suffix holds no ':' |
| Client.ParseLineMeaning | client.go:134-143 | a line is kept exactly when it has one ':' and Atoi accepts the text after it; the record is then the text before the ':' and that count |
| Client.ParseLineFormatted | client.go:134-142 | a line written as suffix, ':' and the decimal text of any int64 count is kept as that suffix and count, negative counts included |
| Client.ParseRecords | client.go:133-144 | readHashes keeps at most one record per line |
| Client.Keep | client.go:133-144 | the filter readHashes applies yields at most one value per line |
| Client.ParseBody | client.go:146-150 | readHashes returns either a non-empty list of records or the no-hashes error |
| Client.ReadHashes | client.go:128-151 | the loop keeps the parse of every line that parses, skips the others, and fails exactly when nothing was kept |
| Client.KeepFilter | client.go:133-144 | filtering keeps the accepted elements' values in order, and no accepted element is dropped |
| Client.KeepEmpty | client.go:146-148 | filtering leaves nothing exactly when no element is accepted |
| Client.ParseRecordsKeep | client.go:133-144 | readHashes's records are the parses of the lines, filtered |
| Client.ParseRecordsFilter | client.go:133-144 | record j is the parse of line kept[j], the kept lines are in increasing order, and every line that parses is among them |
| Client.ParseRecordsEmpty | client.go:146-148 | no record survives exactly when no line parses |
| Client.FetchHashes | client.go:106-126 | a failed request is an error, any status other than 200 is an error that does not depend on the body, and success means status 200 and a non-empty list of records |
| Client.GetHashes | client.go:106-126 | one request to base + prefix, whose reply is judged as FetchHashes states |
| Client.FetchIgnoresBodyOnError | client.go:121-123 | with a status other than 200 the result is an error that is the same for every body |
| Client.FetchNoHashesIffNoLineParses | client.go:121-148 | with status 200 the fetch fails exactly when no line of the body parses, and then with the no-hashes error |
| Client.MatchedCount | client.go:97-103 | the result is the count of a record with the given suffix, or 0 when no record has that suffix |
| Client.MatchedCountFirst | client.go:97-100 | when record i is the first whose suffix matches, the result is its count |
| Client.MatchedCountNone | client.go:97-103 | when no record matches, the result is 0 |
| Client.FindCount | client.go:97-103 | the loop returns the count of the first matching record, or 0 |
| Client.Check | client.go:89-104 | an error exactly when fetching for the digest's prefix fails, and then the count is -1 and not 0; otherwise the count of the first record matching the suffix, or 0 |
| Client.TestSuffixes | client_test.go:70-73 | the test suffixes hold no ':' or newline, and each returned suffix differs from the empty password's |
| Client.TestLineParses | client_test.go:200-203 | each line of the test body is kept, with its suffix and count |
| Client.TerminatedThree | client_test.go:200-203 | three lines each followed by a newline form the test body's layout |
| Client.TestBodyLines | client_test.go:200-203 | scanning three newline-terminated lines gives those three lines |
| Client.ParseRecordsThree | client.go:133-144 | three lines that all parse give their three records in order |
| Client.ThreeRecords | client.go:128-151 | a body of three parsing lines gives their three records |
| Client.TestBodyRecords | client_test.go:95-111 | readHashes on the test body gives exactly the three records (1E4C..., 3303003), (4D05..., 0), (6101..., 42) in order |
| Client.TestBodyMatches | client_test.go:131-163 | against the test body, the suffix of "password" matches count 3303003 and the suffix of the empty password gives 0 |
| Humanize.Abs | vendor/github.com/theckman/humanize-go/numbers.go:11-17 | abs is the magnitude of every int64, including abs(MinInt64) = 2^63 |
| Humanize.AbsWrap | vendor/github.com/theckman/humanize-go/numbers.go:13 | negating a negative int64 and converting to uint64 gives its magnitude, even where the negation wraps |
| Humanize.Ordinality | vendor/github.com/theckman/humanize-go/numbers.go:19-30 | the suffix is one of th, st, nd, rd |
| Humanize.OrdinalityByText | vendor/github.com/theckman/humanize-go/numbers.go:19-30 | ordinality agrees with the English rule on the written number: th after a tens digit 1, otherwise st, nd, rd for a final 1, 2, 3 and th for every other digit |
| Humanize.OrdinalInt64 | vendor/github.com/theckman/humanize-go/numbers.go:40-42 | the signed decimal text followed by the English suffix of the magnitude |
| Humanize.OrdinalInt | vendor/github.com/theckman/humanize-go/numbers.go:34-36 | the same text as OrdinalInt64 |
| Humanize.OrdinalUint64 | vendor/github.com/theckman/humanize-go/numbers.go:52-54 | the decimal text followed by its English suffix |
| Humanize.OrdinalUint | vendor/github.com/theckman/humanize-go/numbers.go:46-48 | the same text as OrdinalUint64 |
| Humanize.OrdinalNegative | vendor/github.com/theckman/humanize-go/numbers.go:40-42 | a negative number reads as '-' followed by the ordinal of its magnitude |
| Humanize.OrdinalDocExamples | vendor/github.com/theckman/humanize-go/numbers.go:32-54 | 2nd, 3rd, 4th and 42nd, as the doc comments give them |
| Humanize.OrdinalTeenExamples | vendor/github.com/theckman/humanize-go/numbers.go:20-23 | 111 takes th and 101 takes st |
| Humanize.OrdinalNegativeExamples | vendor/github.com/theckman/humanize-go/numbers.go:40-42 | -1 gives -1st and -12 gives -12th |
| Humanize.Group | vendor/github.com/theckman/humanize-go/numbers.go:68-81 | grouping a text of n characters gives n + (n-1)/3 characters and keeps the first character, so there is no leading comma |
| Humanize.GroupAt | vendor/github.com/theckman/humanize-go/numbers.go:92-109 | counting from the right, positions 3, 7, 11, ... hold a ',' and the others hold the digits in order |
| Humanize.RemoveCommasGroup | vendor/github.com/theckman/humanize-go/numbers.go:92-109 | removing the commas from the grouped text gives the digits back |
| Humanize.LeadingGroup | vendor/github.com/theckman/humanize-go/numbers.go:103-108 | the leftmost group is the first 1 to 3 digits and the first ',' follows it |
| Humanize.DigitSlot | vendor/github.com/theckman/humanize-go/numbers.go:94-101 | the c-th digit from the right belongs at buffer index L-1-c-c/3 |
| Humanize.CommaSlot | vendor/github.com/theckman/humanize-go/numbers.go:103-108 | after a positive multiple of 3 digits, with digits still to come, the next index is in the buffer, above 0, and holds a ',' |
| Humanize.FillGrouped | vendor/github.com/theckman/humanize-go/numbers.go:79-109 | the right-to-left buffer fill produces exactly the grouped text, writing every slot once, from the last index down to 0 |
| Humanize.FormatCommaUint64 | vendor/github.com/theckman/humanize-go/numbers.go:135-183 | commaUint64 is the grouped decimal text of i |
| Humanize.FormatCommaInt64 | vendor/github.com/theckman/humanize-go/numbers.go:56-121 | commaInt64 is '-' for a negative i, followed by the grouped decimal text of its magnitude |
| Humanize.CommaInt64 | vendor/github.com/theckman/humanize-go/numbers.go:125-127 | the same text as commaInt64 |
| Humanize.CommaInt | vendor/github.com/theckman/humanize-go/numbers.go:131-133 | the same text as commaInt64 |
| Humanize.CommaUint64 | vendor/github.com/theckman/humanize-go/numbers.go:187-189 | the same text as commaUint64 |
| Humanize.CommaUint | vendor/github.com/theckman/humanize-go/numbers.go:193-195 | the same text as commaUint64 |
| Humanize.GroupedNumber | vendor/github.com/theckman/humanize-go/numbers.go:66-77 | the grouped number is its digits with the commas removed, has (digits-1)/3 commas, and is unchanged below 1000 |
| Humanize.CommaExamples | vendor/github.com/theckman/humanize-go/numbers.go:123-124 | 1000 becomes 1,000, 1000000 becomes 1,000,000, 123456 becomes 123,456, and 12 is unchanged |

## Left out

- SHA-1 is not modelled. `HashPassword` and `Check` take the 20-byte digest of the password as input.
- HashSplit.KnownPrefixes: only the prefix halves of the hash vectors in `client_test.go` (lines 70-73) are stated, for digests that start with the expected bytes. The suffix halves depend on the whole SHA-1 output. The "test word" and "unicode" prefixes are not stated.
- `New`, `url.Parse`, the HTTP transport settings, the User-Agent header and closing the body are not modelled. Building and sending the request is the `service` parameter. Both ways a request can fail become `Failed(reason)`.
- Client.Check: errors are modelled by kind (`RequestFailed`, `UnexpectedStatus`, `NoHashes`). The text `fmt.Errorf` builds for each error is not modelled.
- Errors while reading the body and `bufio.Scanner`'s 64 KiB limit on a line are not modelled. The body is a complete string.
- Text is `seq<char>`, one char for each byte of the body. UTF-8 decoding plays no part in the code modelled.
- `cmd/pp/main.go`, the command-line program, is not part of this model.
- Go's `int` and `uint` are taken to be 64 bits wide, so `OrdinalInt`, `CommaInt`, `OrdinalUint` and `CommaUint` take int64 and uint64 values.
- `fmt`, `strconv.FormatInt`, `strconv.FormatUint` and `bytes.Buffer` are not modelled as library code. They are replaced by the specification functions `Decimal.FormatInt` and `Decimal.Digits`, and by sequence concatenation.
- Integer overflow is modelled only where the code can reach it: `abs` negating `MinInt64`. Every other value the code handles fits its Go type.
