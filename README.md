# Board-level test jig: a Dafny model

`board_level_testing.py` drives a Raspberry Pi test jig for a manufactured
circuit board. When the operator presses the button, the station:

1. allocates a device identifier from the ERP's record of the last board made today, and registers it;
2. flashes test firmware through JLinkExe;
3. reads the board's self-test report from the UART;
4. reports the result;
5. on a pass, writes the identifier into an Intel HEX record, merges it into the production image, flashes that image and registers the board with an analytics endpoint.

This project models the deterministic core of that program and proves what it computes.

- **Hex codec** (`HexCodec`, on top of `Numerals` and `Text`).
  - `intToHexStr`, `charToASCII`, `split_len`, `twos_complement` and `get_hex_line`.
  - The text `gen_product_hex` writes to `product.hex`.
  - Python's `format(_, 'x')`, `str`, `zfill`, `int`, `split`, `in` and `splitlines` are written out in `Numerals` and `Text`, as far as this program uses them.
- **Record reader** (`IntelHex`). An independent reader of Intel HEX records: colon, count, address, type, data, and a checksum that makes all bytes sum to 0 modulo 256. The records the station writes are judged against it.
- **Identifier allocation** (`BoardId`).
  - `new_board_id`.
  - The successor and fallback logic of `get_board_id`, with the ERP's reply and today's date as inputs.
- **Tool verdicts** (`FlashTool`). `analyze_output`.
- **UART protocol** (`UartProtocol`).
  - `get_test_dict`.
  - The reading loop of `test()`. The port is a finite sequence of byte lines; the lines running out stands for the 30-second budget.
- **Session sequencing** (`Station`).
  - A class `Jig` holds:
    - the program's globals: `current_board_id`, the product version and the manufacturer;
    - the hardware outputs: the power pin, the serial port and the two LEDs;
    - a log of outward effects: HTTP posts, tool runs, power cycles and the written `product.hex`.
  - Each function of the sequence is a method on it: `create_device`, `flash_testing_firmware`, `start_testing`, `test`, `flash_prod_firmware`, `update_hasura`, `turn_on`, `pwr_reset` and `button_pressed`.
  - `sys.exit()` and uncaught exceptions end the session with an `Abort` value, and nothing is released: the contract of `Station.Jig.ButtonPressed` gives the LEDs, the power and the port after every ending.

## Where the code departs from what it evidently intends

The model follows the code in each case.

- **Checksum.** An Intel HEX record's checksum byte makes all bytes of the record sum to 0 modulo 256, that is `(256 - s mod 256) mod 256` for a byte sum `s`. `get_hex_line` (lines 138-148) uses instead the low byte of `abs(s - 2^bit_length(s))`. That agrees with the Intel HEX checksum for every sum of 128 or more, powers of two included, and disagrees for *every* sum below 128: a sum of 0 gets `01` instead of `00`. `HexCodec.ChecksumBalancesIff` and `HexCodec.ChecksumIsStandardIff` prove both directions.
  - The identifier record's fixed prefix `10108000` already sums to 0xA0. So that record always gets the Intel HEX checksum (`HexCodec.ProductRecordChecksum`).
- **Payload validation.** Nothing in `get_hex_line` checks that the payload is an even number of hex digits: an odd last digit is summed as a one-digit chunk, and the model does the same. Its only caller passes an even number of digits.
- **Byte count.** An Intel HEX record's first byte counts its data bytes. The prefix written at line 163 always declares 16 data bytes (0x10), and nothing checks the identifier's length.
  - The identifier record is a well-formed record exactly when the identifier has 16 one-byte characters (`IntelHex.ProductRecordValidIff`).
  - An identifier built as `new_board_id` builds it, such as `APPB01XX2501010000` (18 characters), yields a record whose count disagrees with its data (`IntelHex.EighteenCharacterIdRecord`). Whether real product and manufacturer names make 16 characters is not visible in the code.
- **`start_testing`.** It returns `False` only when `flash_testing_firmware` does, and that function never returns `False`: every failing tool run exits first. `button_pressed` ignores the value anyway.
- **Exits release nothing.** Every `sys.exit()` ends the program where it stands. This covers `make_req` (lines 347-359), `make_post_req` (lines 331-344), `analyze_output` (lines 118-127) and `update_hasura` (lines 252-268). The exception raised by `str(line, 'ascii')` (line 218) does the same. None of these turns the power off, closes the port or lights an indicator.
  - The power pin, switched on at line 275, stays on after any exit before the UART reading. It also stays on after an erase or upload failure in `flash_prod_firmware`, which follows a `pwr_reset`.
  - An undecodable UART line leaves the port open and the board powered.
  - A failed Device post, a failed test flash or an undecodable line leaves both LEDs blinking: `turn_on(0)`, the fail indication, is only reached after `test()` returns.
  - `Station.Jig.ButtonPressed` states the power, the port and the LEDs after every ending.
- **Unreachable ERP.** `get_board_id` calls `make_req` (line 69) before its `try`, so a failed request exits rather than falling back to `new_board_id` (`BoardId.AllocateUnreachable`).
- **Empty previous name.** When the ERP's last record has an empty name, the test at line 71 fails. The `try` block then ends without a `return`, and `get_board_id` returns `None` with `current_board_id` unchanged. The session goes on: the f-string at line 82 writes `None` as text, so the Device record is posted with `device_id` set to the text `None`, and the report, `product.hex` and the analytics insert all use the identifier of the previous session, or the empty one set at start-up. This is shown by `BoardId.AllocateEmptyName`, `Station.EmptyNameContinues` and the identifier clauses of `Station.Jig.ButtonPressed`.

## Model

| member | source | states |
|---|---|---|
| Text.ContainsIff | board_level_testing.py:120-123 | the `in` test on strings holds exactly when the pattern occurs at some position |
| Text.Contains | board_level_testing.py:120-123 | the definition of Python's `pat in s`, scanning from the left; `Text.ContainsIff` states what it computes |
| Text.SplitJoin | board_level_testing.py:220 | `str.split(',')` loses nothing: joining the pieces with the separator gives the line back |
| Text.SplitPiecesFree | board_level_testing.py:220 | no piece of a split contains the separator |
| Text.SplitMany | board_level_testing.py:220 | a line splits into more than one field exactly when it contains a comma |
| Text.SplitAfterPiece | board_level_testing.py:220 | text free of the separator followed by the separator is the first piece, and the rest splits on its own |
| Text.SplitThree | board_level_testing.py:220 | three separator-free fields joined by the separator split back into exactly those three |
| Text.SplitFirst | board_level_testing.py:61 | the first piece of `split('-')` is the text before the first `-` |
| Text.SplitSecond | board_level_testing.py:62 | with a `-` present, the second piece is the text between the first and the second `-` |
| Text.ZFill | board_level_testing.py:55 | `zfill(width)` yields a string of the larger of its length and `width` |
| Text.ZFillUnsigned | board_level_testing.py:55 | on unsigned text `zfill` only prepends zeros |
| Text.StripLineBreaksSpec | board_level_testing.py:195 | `''.join(s.splitlines())` removes every line boundary, keeps text without one unchanged, and is empty exactly when the text is only line boundaries |
| Text.StripLineBreaksAppend | board_level_testing.py:195 | taking the line boundaries out of two texts one after the other is taking them out of each, so the result keeps every other character in order |
| Text.StripLineBreaksChar | board_level_testing.py:195 | a single character is dropped exactly when it is a line boundary and kept otherwise |
| Text.Split | board_level_testing.py:220 | the definition of `str.split(sep)`: the pieces between separators, at least one; `Text.SplitJoin`, `Text.SplitPiecesFree` and `Text.SplitMany` state what it computes |
| Text.StripLineBreaks | board_level_testing.py:195 | the definition of `''.join(s.splitlines())`; `Text.StripLineBreaksSpec` states what it computes |
| Numerals.ToBase | board_level_testing.py:55 | the definition of `format(n, 'x')` (and of `str(n)` in base 10); `Numerals.ValueOfToBase`, `Numerals.ToBaseDigits` and `Numerals.ToBaseNoLeadingZero` state what it computes |
| Numerals.IntToString | board_level_testing.py:73 | the definition of `str(n)` for any integer, a `-` before the digits of a negative one; `Numerals.ParseIntToString` states that `int` reads it back |
| Numerals.ValueOfToBase | board_level_testing.py:55 | `format(n, 'x')` and `str(n)` denote `n` again when read back |
| Numerals.ToBaseDigits | board_level_testing.py:55 | they write lowercase digits of their radix only |
| Numerals.ToBaseNoLeadingZero | board_level_testing.py:55 | they never write a superfluous leading zero |
| Numerals.ParseIntToString | board_level_testing.py:73 | `int(str(n)) == n` for every integer |
| Numerals.PadTwo | board_level_testing.py:55 | a number below base squared, zero-filled to width 2, is its high digit then its low digit |
| Numerals.TenThousand | board_level_testing.py:73 | `str(10000)` is `10000`, five digits |
| Numerals.ParseInt | board_level_testing.py:73 | the definition of `int(t)` on an optional sign and ASCII digits, `None` where `int` raises; `Numerals.ParseIntToString` inverts `str` with it |
| HexCodec.IntToHexStrSpec | board_level_testing.py:54-55 | `intToHexStr(v)` is lowercase hex denoting `v`, at least two digits, exactly two when `v < 256`, and then exactly the byte's two digits |
| HexCodec.IntToHexStr | board_level_testing.py:54-55 | the definition of `format(v, 'x').zfill(2)`; `HexCodec.IntToHexStrSpec` states what it computes |
| HexCodec.EncodeAscii | board_level_testing.py:87-95 | the definition of `charToASCII`: the codes of the characters, each through `intToHexStr`, joined; the encoding lemmas below state what it computes |
| HexCodec.CharToAscii | board_level_testing.py:87-95 | the loop building and joining `temp_lst` produces the encoding function's text |
| HexCodec.EncodeAsciiAppend | board_level_testing.py:87-95 | the encoding of two strings one after the other is their encodings one after the other |
| HexCodec.EncodeAsciiIsLowerHex | board_level_testing.py:87-95 | whatever the characters, the encoding holds lowercase hex digits only |
| HexCodec.EncodeAsciiOfBytes | board_level_testing.py:87-95 | for one-byte characters the encoding has two digits per character, the i-th pair being the i-th character's byte |
| HexCodec.EncodeAsciiLength | board_level_testing.py:87-95 | for one-byte characters the encoding is twice as long as the text |
| HexCodec.AsciiRoundTrip | board_level_testing.py:87-95 | reading the digit pairs back as characters recovers one-byte text |
| HexCodec.EncodeAsciiInjective | board_level_testing.py:87-95 | two one-byte texts with the same encoding are equal |
| HexCodec.EncodeAsciiWideCollision | board_level_testing.py:87-95 | beyond one byte per character the encoding is not injective: U+1234 and U+0012 `4` both encode as `1234` |
| HexCodec.BytesOfEncodeAscii | board_level_testing.py:87-95 | the bytes of the encoding of one-byte text are its character codes |
| HexCodec.SplitLen | board_level_testing.py:98-99 | the definition of `split_len`: consecutive chunks of the given length, the last possibly shorter; `HexCodec.SplitLenSpec` states what it computes |
| HexCodec.SplitLenSpec | board_level_testing.py:98-99 | `split_len(s, n)` for `n > 0` yields chunks that concatenate to `s`, each non-empty and at most `n` long, all but the last exactly `n`; for `n < 0` it yields no chunk |
| HexCodec.SplitLenAppend | board_level_testing.py:98-99 | splitting an even-length text followed by more text into pairs splits each part on its own |
| HexCodec.ByteSumIsBytes | board_level_testing.py:143-146 | for an even-length payload the chunk sum of `get_hex_line` is the sum of the payload's bytes |
| HexCodec.ByteSumAppend | board_level_testing.py:143-146 | the chunk sum of an even-length text followed by more is the sum of the two chunk sums |
| HexCodec.TwosComplement | board_level_testing.py:138-139 | the definition of `twos_complement`, `abs(j - 2^bit_length(j))`; `HexCodec.TwosComplementSpec` gives it in closed form |
| HexCodec.BitLength | board_level_testing.py:139 | the definition of `int.bit_length()`; `HexCodec.BitLengthBounds` states what it computes |
| HexCodec.BitLengthBounds | board_level_testing.py:139 | a positive `n` has `bit_length()` bits: `2^(b-1) <= n < 2^b` |
| HexCodec.TwosComplementSpec | board_level_testing.py:138-139 | `twos_complement(0) == 1`; for `j > 0`, `j + twos_complement(j)` is the next power of two above `j`, and `0 < twos_complement(j) <= j` |
| HexCodec.ChecksumBalancesIff | board_level_testing.py:138-147 | the checksum byte makes the byte sum 0 modulo 256 exactly when the sum is at least 128 |
| HexCodec.ChecksumIsStandardIff | board_level_testing.py:138-147 | the checksum byte equals the textbook `(256 - s mod 256) mod 256` exactly when the sum is at least 128 |
| HexCodec.StandardChecksumUnique | board_level_testing.py:138-147 | the textbook checksum is the one byte that balances a sum |
| HexCodec.LastTwoDigits | board_level_testing.py:147 | the last two characters of `intToHexStr(t)` are the two digits of `t`'s low byte |
| HexCodec.ChecksumTextSpec | board_level_testing.py:147 | the checksum text is two lowercase hex digits whose value is `twos_complement(s) mod 256` |
| HexCodec.ChecksumText | board_level_testing.py:147 | the definition of the checksum text `intToHexStr(twos_complement(total))[-2:]`; `HexCodec.ChecksumTextSpec` and `HexCodec.LastTwoDigits` state what it computes |
| HexCodec.ChecksumOfZero | board_level_testing.py:147 | a payload whose chunks sum to 0 gets the checksum text `01`, where the textbook checksum is `00` |
| HexCodec.HexLine | board_level_testing.py:142-148 | the definition of `get_hex_line`'s result: `:`, the payload and the checksum text of its chunk sum; `HexCodec.HexLineSpec` and `IntelHex.ParseHexLine` state what it means |
| HexCodec.GetHexLine | board_level_testing.py:142-148 | the summing loop of `get_hex_line` produces the record function's text |
| HexCodec.HexLineSpec | board_level_testing.py:142-148 | the record is `:`, the payload and two lowercase checksum digits whose value is the low byte of `twos_complement` of the chunk sum; for an even-length payload the bytes after the colon sum to 0 modulo 256 exactly when the payload sum is at least 128 |
| HexCodec.PrefixSum | board_level_testing.py:163 | the prefix `10108000` sums to 0xA0 |
| HexCodec.ProductRecord | board_level_testing.py:163 | the definition of the identifier record `get_hex_line('10108000' + charToASCII(id))`; `HexCodec.ProductRecordChecksum`, `HexCodec.ProductRecordBalanced`, `IntelHex.ProductRecordValidIff` and `IntelHex.ProductRecordFields` state what it holds |
| HexCodec.ProductRecordChecksum | board_level_testing.py:163 | whatever the identifier, the identifier record's payload sums to at least 0xA0, so its checksum is the textbook one |
| HexCodec.ProductRecordBalanced | board_level_testing.py:163 | for a one-byte identifier the identifier record's bytes sum to 0 modulo 256 |
| HexCodec.ProductRecordOneLine | board_level_testing.py:162-165 | the identifier record holds no line break |
| HexCodec.ProductHexContents | board_level_testing.py:162-165 | the definition of the text `gen_product_hex` writes; `HexCodec.ProductHexLines` and `IntelHex.ProductHexRecords` state what it holds |
| HexCodec.ProductHexLines | board_level_testing.py:162-165 | `product.hex` splits into the address record, the identifier record, the end-of-file record and the empty rest after the final newline |
| IntelHex.ParseHexLine | board_level_testing.py:142-148 | what `get_hex_line` writes for an even-length payload of at least four bytes reads back as a record exactly when its count byte matches its data and its sum is at least 128, with the payload's fields and `twos_complement` as checksum |
| IntelHex.ParseExtendedLinearAddress | board_level_testing.py:162 | the first line of `product.hex` is a valid extended linear address record selecting 0x1000 |
| IntelHex.ParseEndOfFile | board_level_testing.py:164 | the last line of `product.hex` is a valid end-of-file record |
| IntelHex.ProductPayload | board_level_testing.py:163 | the identifier record's payload is even-length hex of at least four bytes: 0x10, 0x10, 0x80, 0x00, then the identifier's character codes |
| IntelHex.ProductRecordValidIff | board_level_testing.py:163 | the identifier record is a well-formed record exactly when the identifier is 16 characters long |
| IntelHex.ProductRecordFields | board_level_testing.py:163 | for a 16-character identifier the record reads back as 16 bytes at 0x1080, type 00, carrying the identifier's codes and the textbook checksum |
| IntelHex.ProductHexRecords | board_level_testing.py:162-165 | for a 16-character identifier the written file is three valid records, the address record, the identifier at 0x1080 and end-of-file, and nothing after the last newline |
| IntelHex.EighteenCharacterIdRecord | board_level_testing.py:163 | the record for the 18-character identifier `APPB01XX2501010000` is not a valid record |
| BoardId.DateStampSpec | board_level_testing.py:60 | `strftime("%y%m%d")` is six digits: year modulo 100, month, day |
| BoardId.DateStamp | board_level_testing.py:60 | the definition of `strftime("%y%m%d")`; `BoardId.DateStampSpec` states what it computes |
| BoardId.NewBoardId | board_level_testing.py:58-63 | the definition of `new_board_id`, `None` where it raises `IndexError`; `BoardId.NewBoardIdSpec` and `BoardId.NewBoardIdEnding` state what it computes |
| BoardId.NewBoardIdSpec | board_level_testing.py:58-63 | `new_board_id` raises exactly when the product version has no `-`; otherwise it is product, major version zero-filled to 2, manufacturer, date and `0000` |
| BoardId.ProductNameSpec | board_level_testing.py:61 | the product part holds no `-` and is everything before the first one |
| BoardId.VersionFieldSpec | board_level_testing.py:62 | the version field is at least two characters, and a numeric major version keeps its value |
| BoardId.NewBoardIdEnding | board_level_testing.py:63 | every fresh identifier ends in the six date digits and `0000` |
| BoardId.NewBoardIdExample | board_level_testing.py:58-63 | product version `APPB-1.0`, manufacturer `XX` on 2025-01-01 give `APPB01XX2501010000` |
| BoardId.SequenceSplit | board_level_testing.py:73 | `s[:-4] + s[-4:] == s` |
| BoardId.SuccessorDigits | board_level_testing.py:73 | `str(n + 1).zfill(4)` for a four-digit `n` is decimal digits denoting `n + 1`, four of them unless `n` is 9999, which gives `10000` |
| BoardId.PaddedDecimal | board_level_testing.py:73 | a zero-filled decimal numeral is digits denoting its number |
| BoardId.NextBoardId | board_level_testing.py:73 | the definition of `s[:-4] + str(int(s[-4:]) + 1).zfill(4)`, `None` where `int` raises; `BoardId.NextBoardIdSpec` states what it computes |
| BoardId.NextBoardIdSpec | board_level_testing.py:73 | with a numeric four-digit tail, the successor keeps `s[:-4]` and ends in digits denoting the tail plus one, one character longer exactly when the tail is 9999 |
| BoardId.NextBoardIdExample | board_level_testing.py:73 | `APPB01XX2501010007` is followed by `APPB01XX2501010008` |
| BoardId.NextBoardIdNegativeTail | board_level_testing.py:73 | `int` accepts a signed tail: `AB-005` is followed by `AB-004` |
| BoardId.NextBoardIdLetters | board_level_testing.py:73 | a tail that is not a number makes `int` raise |
| BoardId.AllocateBoardId | board_level_testing.py:66-77 | the definition of how `get_board_id` ends: an identifier, `None`, an exit or an `IndexError`; the four lemmas below state each case |
| BoardId.AllocateUnreachable | board_level_testing.py:69 | an unreachable ERP ends the run: there is no fallback |
| BoardId.AllocateEmptyName | board_level_testing.py:70-74 | an empty previous name makes `get_board_id` return `None` without storing an identifier |
| BoardId.AllocateSuccessor | board_level_testing.py:70-74 | a previous name with a numeric tail gives its successor |
| BoardId.AllocateFallback | board_level_testing.py:70-77 | no record, or a tail `int` rejects, gives the fresh identifier (ending in the date and `0000`) when the product version has a `-`, and ends the run otherwise |
| FlashTool.AnalyzeOutputSpec | board_level_testing.py:118-127 | the probe marker anywhere means probe-disconnected; otherwise `failed` anywhere means upload-failed; otherwise success, each in both directions |
| FlashTool.AnalyzeOutput | board_level_testing.py:118-127 | the definition of `analyze_output`'s verdict; `FlashTool.AnalyzeOutputSpec` states it in terms of occurrences |
| FlashTool.ProbeBeforeFailure | board_level_testing.py:120-125 | output holding both the probe marker and `failed`, in either order, is judged probe-disconnected |
| FlashTool.FailedAnywhere | board_level_testing.py:123-125 | `failed` anywhere in output without the probe marker is an upload failure |
| FlashTool.AnalyzeOutputExtends | board_level_testing.py:118-127 | more output can only worsen the verdict: a missing probe stays missing, and success of the longer text implies success of its start |
| UartProtocol.GetTestDictSpec | board_level_testing.py:190-196 | the component is the first field; the result is Pass exactly when `1` occurs in the second; the type is `Board`; the logs hold no line break and are empty exactly when there are no further fields or they hold only line breaks; their text is `StripLineBreaks` of the further fields run together, which `Text.StripLineBreaksAppend` and `Text.StripLineBreaksChar` determine character by character |
| UartProtocol.GetTestDict | board_level_testing.py:190-196 | the definition of the record `get_test_dict` builds; `UartProtocol.GetTestDictSpec` states each field |
| UartProtocol.LineResults | board_level_testing.py:220-221 | the definition of the records one line adds: `get_test_dict` of its fields when it splits into more than one; `UartProtocol.LineResultsSpec` states what it computes |
| UartProtocol.LineResultsSpec | board_level_testing.py:220-221 | a line yields one record exactly when it contains a comma, named by the text before the first comma |
| UartProtocol.SplitCheckLine | board_level_testing.py:218-220 | the line `temp,1,ok` with the newline `readline` keeps splits into `temp`, `1` and `ok` plus the newline |
| UartProtocol.StripCheckLog | board_level_testing.py:195 | `''.join("ok\n".splitlines())` is `ok` |
| UartProtocol.LineResultsExample | board_level_testing.py:218-221 | that line yields one record: component `temp`, Pass, `Board`, logs `ok` without the newline |
| UartProtocol.AsciiTextInjective | board_level_testing.py:218 | `str(line, 'ascii')` loses nothing: distinct byte lines decode to distinct text |
| UartProtocol.StopSpec | board_level_testing.py:217-218 | reading stops at the first line that cannot be decoded or that carries `END`, or at the end of the lines |
| UartProtocol.Stop | board_level_testing.py:217-218 | the definition of where the reading loop stops; `UartProtocol.StopSpec` and `UartProtocol.StopUnique` characterise it |
| UartProtocol.StopUnique | board_level_testing.py:217-218 | any index before which every line is decodable and free of `END`, and at which the lines end or one is not, is where reading stops |
| UartProtocol.ReadSession | board_level_testing.py:213-221 | the definition of what the reading loop takes from the port; `UartProtocol.ReadSessionSpec` describes it without `Stop` |
| UartProtocol.ReadLines | board_level_testing.py:213-221 | the reading loop returns the reading the session function describes: lines read, last line and records, or the first undecodable line |
| UartProtocol.ReadSessionSpec | board_level_testing.py:213-221 | a completed reading consumed a decodable prefix in which only the last line may carry `END` (and does unless input ran out), read nothing only on an empty port, has the last line read as its last line and kept the records of exactly those lines; a failed one names the first undecodable line before any `END` |
| UartProtocol.ResultsAppend | board_level_testing.py:220-221 | records are appended in arrival order: the records of two runs of lines are the records of each, one after the other |
| UartProtocol.ResultsCount | board_level_testing.py:220-221 | at most one record per line; none when no line has a comma; one per line when every line has one |
| UartProtocol.Verdict | board_level_testing.py:226 | the definition of the verdict, a `1` in the last line read; `UartProtocol.VerdictSubstring` states that it is Python's substring test `"1" in last_line` |
| UartProtocol.VerdictSubstring | board_level_testing.py:226 | the verdict holds exactly when the substring test `Text.Contains(last_line, "1")` does |
| UartProtocol.SilentPortFails | board_level_testing.py:226-233 | a port that yields nothing is a failure with no records |
| UartProtocol.PassingReportExample | board_level_testing.py:217-229 | a check line `m,1` then `END1` stop the reading there with one Pass record and a passing verdict, whatever follows |
| UartProtocol.NonAsciiLineFails | board_level_testing.py:218 | a non-ASCII line before any `END` makes the reading raise at that line |
| Station.Judge | board_level_testing.py:118-127 | the caller continues exactly when the output is judged a success; otherwise it exits with `analyze_output`'s own failing verdict |
| Station.AllocationAbort | board_level_testing.py:66-77 | allocation ends the session exactly when the ERP is unreachable or the fallback raises |
| Station.Returned | board_level_testing.py:66-77 | `get_board_id` returns an identifier exactly when it stores one |
| Station.PreparationAbort | board_level_testing.py:275-276 | how registration and test flashing end the session: the first of the allocation, the Device post, the erase and the upload to fail; none exactly when all succeed, and never an undecodable line |
| Station.ProductionAbort | board_level_testing.py:279-281 | how a passing session's end stops: the first of the merge, the erase, the upload and the analytics insert to fail; none exactly when all succeed |
| Station.SessionAbort | board_level_testing.py:271-285 | how a whole session ends; it runs to the end exactly when preparation succeeds, the reading completes, the report is accepted and, on a pass, production succeeds; it ends at an undecodable line exactly when preparation succeeded and the reading failed |
| Station.EmptyNameContinues | board_level_testing.py:66-84 | an empty previous name does not end the session: nothing is stored, and the Device record is posted with `None`, which line 82 writes as the text `None` |
| Station.TestingEffects | board_level_testing.py:236-240 | what `start_testing` records up to its first failing tool: the test upload is run exactly when the erase succeeded, and the restart happens exactly when both succeeded |
| Station.PreparationEffects | board_level_testing.py:275-276 | what registration and test flashing record: nothing exactly when allocation ends the session, the full Device post and test flash when neither stage aborts, and never a production step |
| Station.ProductionEffects | board_level_testing.py:279-280 | what a passing session's end records up to its first failure: the production upload exactly when the merge and the erase succeeded, the analytics insert exactly when all three tools succeeded, and the whole flash and insert when nothing aborts |
| Station.ReadingAbort | board_level_testing.py:277-285 | how a session past preparation ends: it runs to the end exactly when the reading completes, the report is accepted and, on a pass, production succeeds; it ends at an undecodable line exactly when the reading does |
| Station.ReadingEffects | board_level_testing.py:277-285 | what a session past preparation records: nothing exactly when the reading hits an undecodable line; a production step only after a completed, passing reading whose report was accepted |
| Station.SessionEffects | board_level_testing.py:271-285 | what a whole session records: it starts with what preparation recorded, and holds a production step only after preparation succeeded and a completed, passing reading was reported |
| Station.PreparationExit | board_level_testing.py:275-276 | a session that ends in preparation ends with preparation's abort and has recorded only what preparation recorded |
| Station.PreparationThrough | board_level_testing.py:271-285 | preparation's effects followed by those of the reading, the report and production make up the session's effects; its ending is the session's ending, and without a pass there is no production step |
| Station.ReportThrough | board_level_testing.py:277-285 | a posted report followed by the end of the session ends as `Station.ReadingAbort` gives and records exactly `Station.ReadingEffects` |
| Station.SessionEffectsComplete | board_level_testing.py:271-285 | a session that runs to the end recorded the Device post, the test flash, the report and, exactly on a pass, the production flash and the analytics insert |
| Station.Jig.TestAndConclude | board_level_testing.py:277-285 | reading, report and production run one after the other: the result is the reading's verdict, the ending is `Station.ReadingAbort`, the effects are exactly `Station.ReadingEffects`, the port is open exactly after an undecodable line, and without a pass no production step is recorded |
| Station.Jig.constructor | board_level_testing.py:463-470 | at start-up the green LED is lit, the red dark, the power off and the port closed |
| Station.Jig.TurnOn | board_level_testing.py:243-249 | exactly one LED is lit afterwards: red for 0, green otherwise |
| Station.Jig.PwrReset | board_level_testing.py:288-292 | the board is powered afterwards, after one power cycle |
| Station.Jig.RunTool | board_level_testing.py:102-115 | one tool run, judged by `analyze_output` |
| Station.Jig.GetBoardId | board_level_testing.py:66-77 | the current identifier changes exactly when an identifier is returned, and becomes that identifier |
| Station.Jig.CreateDevice | board_level_testing.py:80-84 | the Device record is posted with whatever `get_board_id` returned, unless allocation exited; a failed post exits; nothing is flashed or registered |
| Station.Jig.FlashTestingFirmware | board_level_testing.py:130-135 | erase, then upload the test firmware only after a good erase; the first failure ends it |
| Station.Jig.StartTesting | board_level_testing.py:236-240 | it completes exactly when both tool runs succeed, and then the board is powered after a power cycle; otherwise it ends with the first failing verdict and the power untouched; on every path it records exactly `Station.TestingEffects` |
| Station.Jig.Test | board_level_testing.py:210-233 | after a completed reading the port is closed, the power off, and the report posted with the verdict, the current identifier and the records read; an undecodable line raises with the port open, the power as it was and nothing posted |
| Station.Jig.GenProductHex | board_level_testing.py:151-167 | writes exactly the `product.hex` text for the current identifier |
| Station.Jig.FlashProdFirmware | board_level_testing.py:177-187 | write, merge, power-cycle, erase, upload, power-cycle and power off, stopping at the first failing tool; it completes exactly when all three tools succeed |
| Station.Jig.UpdateHasura | board_level_testing.py:252-268 | posts the insertion of the current identifier; a failed request exits |
| Station.Jig.Prepare | board_level_testing.py:275-276 | registration then test flashing; the current identifier changes exactly when one is allocated; it ends exactly as `Station.PreparationAbort` gives, leaving the board powered on success and the power untouched otherwise, with nothing production-related done; on every path it records exactly `Station.PreparationEffects` |
| Station.Jig.Conclude | board_level_testing.py:279-285 | on a pass, production flashing and registration, then green, ending exactly as `Station.ProductionAbort` gives; an exit at the merge leaves the power as it was, one at the erase or the upload leaves it on, and one at the insert leaves it off; otherwise red only, with no tool run and the power untouched; on every path it records exactly `Station.ProductionEffects` after a pass and nothing otherwise |
| Station.Jig.ButtonPressed | board_level_testing.py:271-285 | a session ends exactly as `Station.SessionAbort` gives, and on every path it records exactly `Station.SessionEffects`. One that runs to the end leaves the board unpowered, the port closed and one LED lit (green exactly on a pass), with exactly the effects of registration, test flashing, the report and, on a pass only, production flashing and registration. An aborted one leaves both LEDs blinking; the port open exactly after an undecodable line; and the board powered exactly when it stopped before the reading, at an undecodable line, or in production after the first power cycle. Without a pass there is never a production upload or registration; the current identifier changes only when one is allocated, never for an empty previous name |

## Left out

- GPIO hardware (`gpiozero` button, LEDs and power pin), `sleep` and `pause`. The LEDs and the power pin are fields; the blink timing is not modelled.
- The OLED display (`draw_text`, `draw_two_lines`, PIL, the SSD1306 driver). The messages it shows are not modelled.
- HTTP and GraphQL (`make_req`, `make_post_req`, `req_download`, the request in `update_hasura`), JSON payload serialisation, and the socket probe of `is_connected`. Replies are inputs; posts are recorded as effects that carry their content, not its JSON text.
- The JLinkExe and `srec_cat` processes. Their captured output is an input string. `check=True` raising on a non-zero exit status is not modelled, and neither is the merge itself.
- `get_info_for_jig`, `download_hex_files` and the start-up code. They are file and network set-up. The product version and the manufacturer are the jig's constants.
- `print`, which only logs.
- The serial port's own failures: `ser.open()` (line 215) raising for a missing `/dev/ttyACM0`, and `ser.readline()` (line 218) raising for an unplugged device. The port is a sequence of lines that the model always delivers.
- The JSON text of the Device post. `DevicePosted(None)` stands for a payload whose `device_id` is the text `None` (line 82).
- Wall-clock time in `test()`. The 30-second budget is the line sequence ending, and the port's 3-second per-line timeout is an empty line in that sequence.
- The button callback is delivered on a gpiozero thread, and a second press during a session could overlap the first. Sessions are modelled one at a time, and `sys.exit()` ends the session.
- Numerals.ParseInt: Python's `int()` also accepts surrounding whitespace, underscores between digits and non-ASCII decimal digits. The model accepts only an optional sign followed by ASCII digits.
- HexCodec.GetHexLine: requires a payload of hex digits. A chunk that is not hex digits is not modelled, whether `int(chunk, 16)` raises on it or accepts it (as it accepts `+f` or ` f`), because the only caller passes the prefix and `charToASCII` output, which are always hex digits.
- HexCodec.SplitLenSpec: a length of 0 is excluded by a precondition. There `range` raises, and the only caller passes 2.
- HexCodec.IntToHexStrSpec: states the result for non-negative arguments only. Character codes and checksums are never negative.
