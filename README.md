# Recipient batching, routing and small utilities, modelled in Dafny

This project models the recipient-batching service of the SH coding challenge and the
small Python utilities that sit beside it in the same repository.

**Batching and routing.**
- `grouper` cuts a list into fixed-size chunks. It pads the last chunk with `None`.
- `div_mod` splits those chunks into whole chunks (the quotient) and the leftover
  elements (the remainder). It filters `None` out of the remainder only.
- `binner` applies `div_mod` at 25, then at 10, 5 and 1 on each remainder. The same body
  appears in `router_lib.py` and in `binner_lib.py`, and both are modelled by
  `Binning.Binner`.
- `get_routes` turns the four bins into an ordered route list. Each batch gets a
  synthetic address `10.0.{4|3|2|1}.k`, where k counts from 1 within its tier.

Python's `None` is `Option<T>`'s `None`. Any other value is `Some(x)`. The padding value is
therefore visible in the model, and so is its collision with a real `None` element. The
lossless properties hold for inputs without `None`; the JSON schema validator in front of
`get_routes` admits only strings. `div_mod` is compared with a slicing reference partition
(`Chunking.Partition`). Its quotient is proved to be the partition's whole chunks. Its
remainder is the partition's leftover with every `None` filtered out, so the two agree
exactly on `None`-free input.

**Utilities.**
- The dotted-decimal IPv4 helpers of `apl2.py`: parse, print, invert an octet, mask an
  address, and build a random address in the same subnet. The random octets are a
  parameter. Python's `&` and `|` on non-negative integers are defined bit by bit in
  `Bits`.
- The Caesar cypher of `CaesarCypher.py`.
- Both versions of `findChIndex` and `splitMyString` in `Nest.py`. The second definition
  of each shadows the first and is the built-in `str.find` or `str.split`, modelled in
  `PyStr`.
- `even_evens` of `Trivia.py`.
- The logged-user notifier of `apple_wt_coding_challenge.py`:
  - The `MessageSender` class, with its set of messaged pairs.
  - The log-line parser.
  - The main loop, which rewrites the log and appends the online servers the log never
    mentions. The loop is a method over a list of input lines. A pure function
    (`RewriteLog`) specifies what it computes.

**Where the code is followed over its documentation.**
- `div_mod` with `n == 0` returns two empty tuples and drops a non-empty input
  (`itertools_ext_lib.py:58-61`). The model does the same (`Chunking.DivModDegenerate`).
- `None` is both the fill value and a possible element. The code filters every `None` out
  of the remainder, real ones included (`itertools_ext_lib.py:91-93`). The model keeps
  that behaviour (`Chunking.DivModDropsNoneInRemainder`).
- The `get_routes` docstring shows tier-1 routes first and spaced addresses such as
  `"10. 0. 1. 1"`. The code emits the 25-batches first and unspaced addresses, and the
  model follows the code.
- The Caesar docstring allows shifts 0 to 25. The code reduces the shift modulo 25, so 25
  acts like 0. See Findings.
- The docstring of `findChIndex` version 1 promises the first index. Its loop returns the
  last. See Findings.

Modules:
- `Wrappers`: Option and Result.
- `Arith`: division facts.
- `Chunking`: `grouper` and `div_mod`.
- `Binning`: `binner`.
- `Router`: `get_routes`.
- `PyStr`: `str.find`, `str.split` and `str.join` for one character.
- `Decimal`: `str()` and `int()` on non-negative integers.
- `Bits`: `&` and `|`.
- `Ipv4`: `apl2.py`.
- `Caesar`, `Nest`, `Trivia`: the files of the same names.
- `LogNotify`: `apple_wt_coding_challenge.py`.

## Model

| member | source | states |
|---|---|---|
| Chunking.Padding | sh_coding_challenge/sh_server/itertools_ext_lib.py:30-31 | the fill is `k` copies of `None` |
| Chunking.StripNone | sh_coding_challenge/sh_server/itertools_ext_lib.py:91-93 | the filtered remainder holds no `None`, only elements of its input, and equals a `None`-free input |
| Chunking.Grouper | sh_coding_challenge/sh_server/itertools_ext_lib.py:8-33 | an empty list gives no chunks; there are ceil(len/n) chunks, each of exactly n elements; their concatenation is the input followed by `(n - len % n) % n` fill values |
| Chunking.Partition | sh_coding_challenge/sh_server/itertools_ext_lib.py:39-50 | reference chunking by slicing: len // n chunks of n, len % n leftover elements, and chunks plus leftover concatenate to the input |
| Chunking.DivMod | sh_coding_challenge/sh_server/itertools_ext_lib.py:36-95 | empty input or n == 0 gives `((), ())`; otherwise the quotient is the slicing partition's whole chunks (len // n chunks of n) and the remainder is its leftover with `None` filtered out |
| Chunking.DivModCases | sh_coding_challenge/sh_server/itertools_ext_lib.py:74-93 | each of the three branches (no quotient, no remainder, both) agrees with the slicing partition |
| Chunking.GrouperIsPaddedPartition | sh_coding_challenge/sh_server/itertools_ext_lib.py:30-33 | `grouper` is the slicing partition with the leftover, if any, padded into one more whole chunk |
| Chunking.DivModDegenerate | sh_coding_challenge/sh_server/itertools_ext_lib.py:58-61 | `div_mod(items, 0)` and `div_mod([], n)` both return two empty tuples, so `n == 0` drops the input |
| Chunking.DivModLossless | sh_coding_challenge/sh_server/itertools_ext_lib.py:64-95 | on a `None`-free list, the quotient chunks followed by the remainder give back the input, and the remainder is the last len % n elements |
| Chunking.DivModDropsNoneInRemainder | sh_coding_challenge/sh_server/itertools_ext_lib.py:91-93 | a real `None` inside a whole chunk is kept while one among the leftover elements is filtered out |
| Chunking.GrouperExample | sh_coding_challenge/sh_server/itertools_ext_lib.py:23-24 | `grouper([1..7], 3)` is `((1,2,3), (4,5,6), (7,None,None))` |
| Chunking.GrouperPreservesOrder | sh_coding_challenge/sh_server/itertools_ext_lib.py:152-173 | concatenating the chunks and dropping `None` gives back a `None`-free input in order |
| Chunking.DivModExampleOne | sh_coding_challenge/sh_server/itertools_ext_lib.py:200-218 | `div_mod([1], 3) == ((), (1,))` |
| Chunking.DivModExampleSix | sh_coding_challenge/sh_server/itertools_ext_lib.py:224-242 | `div_mod([1..6], 3) == (((1,2,3),(4,5,6)), ())` |
| Chunking.DivModExampleSeven | sh_coding_challenge/sh_server/itertools_ext_lib.py:249-267 | `div_mod([1..7], 3) == (((1,2,3),(4,5,6)), (7,))` |
| Binning.Binner | sh_coding_challenge/sh_server/binner_lib.py:8-52 | bin_25 has len // 25 batches of 25; bin_10, bin_5 and bin_1 hold batches of 10, 5 and 1; bin_5 has at most one batch |
| Binning.DivModByOne | sh_coding_challenge/sh_server/router_lib.py:53 | `div_mod(s, 1)` leaves no remainder and makes every element its own singleton batch, in order |
| Binning.BinCounts | sh_coding_challenge/sh_server/router_lib.py:159-166 | on a `None`-free list the bin sizes are len // 25, (len % 25) // 10, (len % 25 % 10) // 5 and len % 25 % 10 % 5 |
| Binning.BinsFlatten | sh_coding_challenge/sh_server/binner_lib.py:45-52 | on a `None`-free list, the batches of the four bins, largest bin first, concatenate to the input |
| Binning.CascadeStep | sh_coding_challenge/sh_server/router_lib.py:48-53 | one stage of the cascade: if the later bins give back this stage's remainder, this stage's quotient followed by them gives back its input |
| Binning.BinnerThirty | sh_coding_challenge/sh_server/binner_lib.py:26-30 | 30 items give one batch of 25 and one of 5 |
| Binning.BinnerFiftyOne | sh_coding_challenge/sh_server/binner_lib.py:32-36 | 51 items give two batches of 25 and one single |
| Binning.BinnerThirteen | sh_coding_challenge/sh_server/binner_lib.py:38-41 | 13 items give one batch of 10 and three singles |
| Router.GetRoutes | sh_coding_challenge/sh_server/router_lib.py:58-144 | the route list is the route table of the binned recipients; no recipients give no routes |
| Router.RoutesOfBins | sh_coding_challenge/sh_server/router_lib.py:100-144 | the three loops and the `if bin5` step build exactly the route table: one route per 25-, 10- and 1-batch plus one for the 5-batch if present |
| Router.RouteTableLayout | sh_coding_challenge/sh_server/router_lib.py:104-142 | the j-th route of each tier is `base + str(j + 1)` with the j-th batch of that bin, tiers in the order 25, 10, 5, 1 |
| Router.RecipientListsOfTable | sh_coding_challenge/sh_server/router_lib.py:109-140 | the routes' recipient lists are the bins' batches in bin order |
| Router.RoutesCoverRecipients | sh_coding_challenge/sh_server/router_lib.py:98-144 | on `None`-free recipients, the routes' recipient lists concatenate to the input |
| Router.RouteSizes | sh_coding_challenge/sh_server/router_lib.py:104-142 | every 25-route carries 25 recipients, every 10-route 10, the 5-route 5 and every 1-route 1 |
| Router.BaseIps | sh_coding_challenge/sh_server/router_lib.py:6-9 | the four prefixes are `"10.0." + str(tier) + "."` for tiers 4, 3, 2, 1 |
| Router.AddressParses | sh_coding_challenge/sh_server/router_lib.py:105 | `"10.0." + str(tier) + "." + str(k)` parses as the octets `[10, 0, tier, k]` |
| Router.RouteAddresses | sh_coding_challenge/sh_server/router_lib.py:104-136 | the k-th 25-batch goes to 10.0.4.k, the k-th 10-batch to 10.0.3.k, the 5-batch to 10.0.2.1 and the k-th single to 10.0.1.k |
| Router.SingleRecipient | sh_coding_challenge/sh_server/router_lib.py:135-142 | one recipient gives exactly one route, `10.0.1.1`, carrying it |
| PyStr.Find | Nest.py:42 | `str.find` returns -1 exactly when `c` is absent, else the first index holding `c` |
| PyStr.Split | Nest.py:146 | `str.split(c)` gives one more piece than there are occurrences of `c`, and no piece contains `c` |
| PyStr.JoinSplit | Nest.py:146 | joining the pieces with `c` gives back the string |
| PyStr.SplitJoin | apl2.py:79 | splitting a join of separator-free pieces gives back the pieces |
| PyStr.Join | apl2.py:79 | `'.'.join(pieces)` starts with the first piece; with `JoinSplit` and `SplitJoin` it is the inverse of `split` |
| Nest.LastIndex | Nest.py:18-24 | the last index holding `c`, or -1 exactly when `c` is absent |
| Nest.FindChIndexLoop | Nest.py:3-24 | version 1's loop returns the last index of `c`, or -1 |
| Nest.LastIndexIsFind | Nest.py:7-24 | version 1 agrees with `str.find` exactly when `c` occurs at most once |
| Nest.FindChIndexLoopLastNotFirst | Nest.py:7-10 | on `('a', 'abbacfa')` version 1 gives 6 and `str.find` gives 0 |
| Nest.SplitMyStringLoop | Nest.py:102-129 | version 1's loop returns `str.split(c)`: count + 1 pieces that join back to the input |
| Nest.SplitExampleStars | Nest.py:111 | `splitMyString('*', 'aaa*sss*fff') == ['aaa', 'sss', 'fff']` |
| Nest.SplitExampleEnds | Nest.py:113 | `splitMyString('a', 'abbacfa') == ['', 'bb', 'cf', '']` |
| Decimal.NatToString | apl2.py:79 | `str(n)` is a non-empty digit string with no leading zero |
| Decimal.NatToStringValue | apl2.py:43 | `int(str(n)) == n` |
| Decimal.DigitsValue | apl2.py:43 | `int()` of a digit string is zero exactly when every digit is `0`, and its last decimal digit is the string's last digit; `NatToStringValue` makes it the inverse of `str()` |
| Decimal.IntToString | apl2.py:79 | `str(i)` is the digit string of `i` for `i >= 0` and `-` before the digits of `-i` otherwise, each reading back to its value and without a leading zero (only `0` itself starts with `'0'`) |
| Bits.And | apl2.py:113 | `a & b` is at most each operand; `AndHalves` gives its lowest bit (both bits set) and the bits above it (`(a // 2) & (b // 2)`) |
| Bits.Or | apl2.py:193 | bitwise or of `a` and `b` is at least each operand and at most their sum; `OrHalves` gives its lowest bit (either bit set) and the bits above it |
| Bits.AndLowOnes | apl2.py:113 | `x & (2**k - 1) == x % 2**k` |
| Bits.Complement | apl2.py:116 | below 2**k, `a` and `2**k - 1 - a` share no bit and together fill all k bits |
| Bits.AndBelow | apl2.py:187-188 | bits of `m` above position k do not meet a `y` below 2**k |
| Bits.MergeMasked | apl2.py:190-194 | OR-ing `x & m` with `r & i` for disjoint masks agrees with `x` on `m` and with `r` on `i` |
| Ipv4.ParseParts | apl2.py:43 | succeeds exactly when every piece is a numeral, giving their values; otherwise the error names the first piece that is not |
| Ipv4.DottedDecimalStrToList | apl2.py:31-52 | succeeds exactly when there are three dots and four numerals, giving their values; with all pieces numerals it reports the wrong count, otherwise the error of `ParseParts`, the first piece that is not a numeral; no range check |
| Ipv4.ListToDottedDecimalStr | apl2.py:55-79 | fails exactly when the list is not four long, reporting its length; otherwise the text splits on `'.'` into exactly the `str()` of each element, in order |
| Ipv4.DottedDecimalRoundTrip | apl2.py:31-79 | printing four octets and parsing the text gives them back |
| Ipv4.InvertOctet | apl2.py:100-118 | the result is `255 - (octet & 255)`, lies in 0..255, and shares no bit with the low byte while OR-ing with it to 255 |
| Ipv4.OctetLowBits | apl2.py:113 | `x & 255` is the low byte of `x`, and that byte and `255 - byte` are bitwise complements |
| Ipv4.InvertOctetInvolution | apl2.py:113-118 | inverting an octet in 0..255 twice gives it back |
| Ipv4.InvertOctetDisjoint | apl2.py:187 | the inverted octet shares no bit with the original, even above bit 7 |
| Ipv4.MaskIpAddress | apl2.py:121-149 | four octets with `out[i] == ip[i] & mask[i]`, unchanged by masking again |
| Ipv4.AndIdempotentRight | apl2.py:147 | masking twice with the same mask is masking once |
| Ipv4.MaskFullAndEmptyOctet | apl2.py:137-141 | a 255 octet mask keeps an octet and a 0 mask clears it |
| Ipv4.MaskTwoFullOctets | apl2.py:137-141 | under a mask `255.255.m.0`, an address `a.b.0.d` masks to `a.b.0.0` |
| Ipv4.MaskDocExample | apl2.py:137-141 | the docstring example: `[192,168,0,1]` masked by `[255,255,254,0]` is `[192,168,0,0]` |
| Ipv4.CombineOctets | apl2.py:182-194 | the masking and OR loops compute the subnet octets from the address, the mask and the random octets |
| Ipv4.GetRandomSubnetAddress | apl2.py:153-197 | parse both strings (address first), combine, print; the result is the specification function's |
| Ipv4.RandomSubnetAddressSameSubnet | apl2.py:153-197 | succeeds exactly when both strings parse; the result parses back to octets that agree with the address under the mask and with the random octets under the inverted mask |
| Caesar.RotateChar | CaesarCypher.py:33-47 | a lower-case letter moves to the letter at (position + offset) % 26; any other character is copied |
| Caesar.Cypher | CaesarCypher.py:21-49 | the cypher text has the input's length, copies every non-letter, and moves each lower-case letter to position (p + shift_mag % 25) % 26 |
| Caesar.SimpleCaesarCypher | CaesarCypher.py:3-49 | same length, non-letters copied, each letter moved to position (p + shift_mag % 25) % 26 |
| Caesar.CypherPeriod | CaesarCypher.py:21 | `shift_mag` and `shift_mag + 25` give the same text |
| Caesar.CypherIdentityAtMultiples | CaesarCypher.py:18-21 | every multiple of 25, 25 included, leaves the text unchanged |
| Caesar.CypherInjective | CaesarCypher.py:36-40 | for a fixed shift, equal cypher texts come from equal texts |
| Caesar.ShiftOneCannotBeUndone | CaesarCypher.py:18-21 | "a" becomes "b" with shift 1, and no shift turns "b" back into "a" |
| Caesar.RotateCorrected | CaesarCypher.py:36-40 | with a 26-letter range, a letter moves to position (p + offset) % 26 and other characters are copied |
| Caesar.CypherCorrected | CaesarCypher.py:11-13 | the corrected cypher text has the input's length, copies every non-letter, and moves each lower-case letter to position (p + shift_mag % 26) % 26 |
| Caesar.CypherCorrectedRoundTrip | CaesarCypher.py:5-13 | with a 26-letter range every shift is undone by its negation, and shift 25 moves "a" to "z" |
| Trivia.EveryOther | Trivia.py:9 | `t[::2]` has (len + 1) // 2 elements, the k-th being `t[2k]` |
| Trivia.KeepEven | Trivia.py:9 | keeps only even values, keeps every even value, adds nothing |
| Trivia.EvenEvens | Trivia.py:3-9 | every result is even, there are at most (len + 1) // 2 of them, and an empty list gives an empty list |
| Trivia.Positions | Trivia.py:9 | the indices of the kept elements are increasing, even and hold even values |
| Trivia.EvenEvensArePicked | Trivia.py:9 | the output is exactly the elements at those indices, in input order |
| Trivia.EvenEvensComplete | Trivia.py:9 | every even value at an even index appears in the output |
| LogNotify.Tokens | apl_coding_challenge/apple_wt_coding_challenge.py:113 | `str.split()` gives non-empty tokens without whitespace |
| LogNotify.Strip | apl_coding_challenge/apple_wt_coding_challenge.py:115-116 | `str.strip()` leaves no whitespace at either end and keeps a whitespace-free string |
| LogNotify.StripIsSlice | apl_coding_challenge/apple_wt_coding_challenge.py:115-116 | `str.strip()` returns a slice `s[i:j]` of its input with only whitespace before `i` and after `j` |
| LogNotify.StripOf | apl_coding_challenge/apple_wt_coding_challenge.py:170 | stripping `lead + m + trail`, with whitespace-only ends and `m` neither starting nor ending in whitespace, gives `m` back |
| LogNotify.StripLeftOf | apl_coding_challenge/apple_wt_coding_challenge.py:115-116 | `lstrip()` of whitespace followed by text that does not start with whitespace gives that text |
| LogNotify.StripRightOf | apl_coding_challenge/apple_wt_coding_challenge.py:115-116 | `rstrip()` of text that does not end in whitespace followed by whitespace gives that text |
| LogNotify.ParseInputfileEntry | apl_coding_challenge/apple_wt_coding_challenge.py:107-118 | succeeds exactly when the line has two tokens, giving (second, first); otherwise reports the token count |
| LogNotify.ParseInputfileEntryRoundTrip | apl_coding_challenge/apple_wt_coding_challenge.py:107-118 | the line `server + " " + user + "\n"` parses to `(user, server)` |
| LogNotify.LineTokens | apl_coding_challenge/apple_wt_coding_challenge.py:113 | `split()` of `server + " " + user + "\n"` is `[server, user]` |
| LogNotify.MessageSender.constructor | apl_coding_challenge/apple_wt_coding_challenge.py:65-69 | a new sender has sent nothing |
| LogNotify.MessageSender.SendMessage | apl_coding_challenge/apple_wt_coding_challenge.py:71-88 | returns true, adds the pair to the set, and messages it only if it was not there, so no pair is messaged twice |
| LogNotify.RunOf | apl_coding_challenge/apple_wt_coding_challenge.py:156-178 | a run without a parse error writes one output line per input line |
| LogNotify.NewServerLines | apl_coding_challenge/apple_wt_coding_challenge.py:185-189 | a line `server + "\n"` for every online server not seen, and no other lines |
| LogNotify.NewServerLinesOne | apl_coding_challenge/apple_wt_coding_challenge.py:186-189 | one online server gives its line exactly when it was not seen |
| LogNotify.NewServerLinesAppend | apl_coding_challenge/apple_wt_coding_challenge.py:185-189 | the lines for `a + b` are those for `a` then those for `b`, so they follow the online list, one per occurrence |
| LogNotify.AppendNewServers | apl_coding_challenge/apple_wt_coding_challenge.py:185-189 | the closing loop writes exactly the new-server lines, in online-list order |
| LogNotify.ProcessLog | apl_coding_challenge/apple_wt_coding_challenge.py:144-189 | the main loop returns the rewritten log or the first parse error, and the sender gains exactly the pairs of the lines whose server is online |
| LogNotify.FailureSticks | apl_coding_challenge/apple_wt_coding_challenge.py:159 | once a line fails to parse, later lines change nothing |
| LogNotify.RewriteLogOkIff | apl_coding_challenge/apple_wt_coding_challenge.py:159 | the rewrite succeeds exactly when every line has two tokens |
| LogNotify.RewriteLogFirstError | apl_coding_challenge/apple_wt_coding_challenge.py:159 | the error is that of the first line without two tokens |
| LogNotify.RewriteLogOk | apl_coding_challenge/apple_wt_coding_challenge.py:156-189 | line k of the output is input line k, stripped and marked " messaged" when its server is online and copied otherwise; then come the new-server lines |
| LogNotify.RunLogServers | apl_coding_challenge/apple_wt_coding_challenge.py:178 | the servers remembered are exactly the first tokens of the input lines |
| LogNotify.RunLogPairs | apl_coding_challenge/apple_wt_coding_challenge.py:163-166 | the pairs messaged are exactly the (user, server) pairs of the lines whose server is online |

## Left out

- The HTTP handler (`sh_server.py`), the JSON schema validator (`SHJsonValidator.py`) and
  the HTTP test client (`test_sh_server.py`) are not part of this model. They are
  transport glue over Flask, `jsonschema` and `requests`. The validator's guarantee that
  recipients are strings appears as the `NoNone` precondition of the lossless lemmas.
- The `__main__` self-test blocks print and exit. Their checks appear as lemmas instead.
- `get_random_ip_address` draws from `random.getrandbits`. Its four octets are the
  parameter `rand`, constrained by `Ipv4.RandomOctets`.
- `get_online_servers` is a stub constant. The online list is the parameter `online`.
- File reading and writing, and console printing, are left out. The main block of the
  notifier reads its input lines from a list and returns its output lines.
- `Nest.Reporter` is a file context manager, so it is left out as file I/O.
- Ipv4.DottedDecimalStrToList: Python's `int()` also accepts surrounding whitespace, a
  sign, underscores and non-ASCII digits. The model accepts only non-empty ASCII digit
  strings, so such parts are `NotAnInteger` errors. Negative octets therefore never occur
  in the model.
- Chunking.DivMod: the chunk size is a `nat`. A negative `n`, on which the source raises
  `IndexError` or returns empty tuples, is not modelled.
- LogNotify.ProcessLog: on a parse error the source has already written the earlier
  lines to the output file before it raises. The model returns only the error, not the
  partial file.
- LogNotify.MessageSender.SendMessage: the message text and the console line it prints
  are not recorded. The transcript records only the (user, server) pair of each message.
- Ipv4.InvertOctetInvolution: stated for octets in 0..255, the range the docstring
  names. Above 255, inverting twice gives the low byte, not the input.
- Python strings are sequences of code points, and so are Dafny strings. `str.split()`
  and `str.strip()` use a fixed whitespace set (`LogNotify.IsSpace`), the code points
  Python treats as whitespace.

## Findings

| source | as written | input that shows it | evidently intended | confidence | as-written member | corrected member |
|---|---|---|---|---|---|---|
| CaesarCypher.py:18-21 | `RANGE = ord('z') - ord('a')` is 25, and the offset is `shift_mag % 25` | `shift_mag = 1` turns "a" into "b", and no `shift_mag` turns "b" back into "a"; `shift_mag = 25` leaves every text unchanged | a range of 26 letters, so every shift can be undone and 25 moves "a" to "z" | not executed | Caesar.ShiftOneCannotBeUndone | Caesar.CypherCorrectedRoundTrip |
| Nest.py:20-22 | the loop of `findChIndex` version 1 overwrites `found_index` on every match and never breaks, so it returns the last index | `findChIndex('a', 'abbacfa')` returns 6 | the first index, 0, as the docstring says and `str.find` (version 2) returns | not executed | Nest.FindChIndexLoopLastNotFirst | PyStr.Find |
