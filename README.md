# UNI-T UT363BT advertisement parser, modelled in Dafny

`parse_uni_t` turns the manufacturer-specific data of a UNI-T UT363BT
anemometer's Bluetooth advertisement into a reading, then records the MAC's
packet id so that repeats can be dropped. This project models that function
as written in `custom_components/ble_monitor/ble_parser/uni_t.py` and proves
what it does on every input:

- where it raises, and which exception;
- what a successful reading holds;
- how the temperature is rounded;
- how the two tables on the parser object change.

The model has two halves, as the source does.

- **The decoder** is a pure function, `UniT.Decode`. It reads byte 3 as the
  packet id. It decodes bytes 5 to 15 as UTF-8, dropping bytes that start no
  valid sequence. It splits that text on `"M/S"` into exactly two names,
  reads the first with `float()` and the second with `int()`, and multiplies
  the speed by the `CONVERT` factor of the unit code (1.0 for unknown codes).
  It reads bytes 14 and 15 as a little-endian temperature and divides by 44.5,
  rounding to one decimal.
  - Nothing handles the exceptions the decode raises (`uni_t.py:36-43`). The
    only `try`/`except` (`uni_t.py:74-77`) turns the `KeyError` of a MAC seen
    for the first time into `None`. Each of the four raising points
    (`mfg_data[3]`, the two-name unpacking, `float`, `int`) is an explicit
    `ParseError`, kept apart from the `None` a repeated packet returns.
  - The supporting modules model what the decoder calls. `Utf8` is
    `bytes.decode(errors="ignore")`. `PyStr` is `str.split`. `PyNum` is
    CPython's `float()` and `int()` grammars on ASCII text: whitespace, sign,
    underscores between digits, fraction, exponent, and `inf`/`nan`.
- **The bookkeeping** is the class `UniT.BleParser`. Its fields are the two
  dictionaries `lpacket_ids` and `adv_priority`, keyed by the raw MAC, plus
  `filter_duplicates` and `rssi`. The method `ParseUniT` decodes first, then
  either reports a duplicate or updates both maps in place.

`UniTFrames` describes the frames the device sends: a five-byte header, an
eleven-character display text such as `"  1.52M/S60"`, then anything. It
proves what the decoder makes of any such frame. `UniTVectors` proves what
the decoder gives on the repository's test frames and on the docstring's frame.

## The code and its tests disagree

The model follows the code.

- **Text and temperature positions.** The code reads the text from bytes
  `[5:16]` and the temperature from `[14:16]`
  (`custom_components/ble_monitor/ble_parser/uni_t.py:40,58`). The tests
  assume text at bytes 9 to 17 and temperature at 18 and 19
  (`custom_components/ble_monitor/test/test_uni_t_parser.py:42-45,83-84,107`).
  The tests also assume a minimum length of 20. The code has no such check:
  past byte 3 every access is a slice.
- **The "valid" test frame raises.** The frame
  `14ffaabb1005372020312e35324d2f53363080046c` gives the text window
  `"\x057  1.52M/S"`, so `float()` raises `ValueError`
  (`UniTVectors.TestFrameRaisesSpeedValueError`). The test expects a reading
  of 25.9 degrees.
- **Malformed input raises instead of returning `None`.** The tests expect
  `None` for malformed frames. The code raises `ValueError` on all three:
  - the frame `12ffaabb` followed by fifteen `'0'` bytes;
  - the frame with no token;
  - the seventeen-byte frame.
- **No log line.** The tests expect a debug log line. The code writes none.
- **Docstring offsets.** The docstring puts the text at bytes 5 to 13, but
  `"  1.52M/S60"` is eleven characters and fills bytes 5 to 15.
  - Bytes 14 and 15 are therefore both the unit code's digits and the
    temperature. On the docstring's frame that temperature is 12342 / 44.5,
    which rounds to 277.3 degrees (`UniTVectors.DocstringFrameReading`).
  - From 16 bytes on, the temperature bytes are the last two bytes of the
    text window (`UniT.TemperatureInsideText`). They are its last two
    characters only when they are ASCII: a byte that the decoding drops can
    still be a temperature byte. Data of 14 bytes or fewer yields a raw
    temperature of 0, and at 15 bytes only byte 14 is read
    (`UniT.RawTemperatureBytes`).
- **Unknown unit codes.** A code outside `CONVERT` does not fail: its factor
  is 1.0.

## Model

| member | source | states |
|---|---|---|
| UniT.Decode | custom_components/ble_monitor/ble_parser/uni_t.py:34-71 | The decoder raises the index error exactly when the data has fewer than four bytes. Every reading has the device type `UNI‑T` (with U+2011) and firmware `UT363BT`. Its packet is byte 3, its MAC is the unformatted MAC, its `data` is true and its RSSI is the parser's. |
| UniT.DecodeOutcome | custom_components/ble_monitor/ble_parser/uni_t.py:40-71 | For four bytes or more, the outcome is set by the occurrences of `"M/S"` in the text window. With no single occurrence the unpacking fails, and it gets one piece exactly when there is no occurrence. With a single occurrence, the text before it must parse as a `float` (else the speed error) and the text after it as an `int` (else the unit-code error). Otherwise the reading has speed × factor and the rounded temperature. |
| UniT.DecodeSingleToken | custom_components/ble_monitor/ble_parser/uni_t.py:40-71 | A single token with a `float` before it and an `int` after it gives exactly the reading built from those two numbers. |
| UniT.DecodeSpeedFails | custom_components/ble_monitor/ble_parser/uni_t.py:41-42 | A single token with no `float` before it raises at `float()`. |
| UniT.NoTokenByte | custom_components/ble_monitor/ble_parser/uni_t.py:40-41 | When no byte 5 to 15 is `0x4D` (`'M'`), the window has no token and the unpacking fails on a single piece, whatever the other bytes are. |
| UniT.NoReadingBelowTenBytes | custom_components/ble_monitor/ble_parser/uni_t.py:36-43 | Data shorter than ten bytes never gives a reading. |
| UniT.TemperatureInsideText | custom_components/ble_monitor/ble_parser/uni_t.py:40-58 | From fourteen bytes on, the temperature bytes `[14:16]` are the last bytes of the text window `[5:16]` (none at 14 bytes, byte 14 at 15 bytes, bytes 14 and 15 from 16 bytes on). |
| UniT.RawTemperatureBytes | custom_components/ble_monitor/ble_parser/uni_t.py:58 | The raw temperature is below 65536. It is 0 for data of 14 bytes or fewer, byte 14 alone at 15 bytes, and `b14 + 256·b15` from 16 bytes on. |
| UniT.FromLittleEndianBound | custom_components/ble_monitor/ble_parser/uni_t.py:58 | `int.from_bytes(bs, "little")` is below `256^len(bs)`. |
| UniT.LittleEndianRoundTrip | custom_components/ble_monitor/ble_parser/uni_t.py:58 | Reading back the little-endian bytes of any number that fits gives the number. |
| UniT.TemperatureTenthsNearest | custom_components/ble_monitor/ble_parser/uni_t.py:59-67 | The tenths computed for `round(raw / 44.5, 1)` lie strictly within half a tenth of `raw / 44.5`, so no tie arises. |
| UniT.TemperatureTenthsUnique | custom_components/ble_monitor/ble_parser/uni_t.py:59-67 | Any number of tenths within half a tenth of `raw / 44.5` is the one computed. |
| UniT.TemperatureTenthsRange | custom_components/ble_monitor/ble_parser/uni_t.py:58-67 | A two-byte raw value gives between 0 and 14727 tenths. |
| UniT.TemperatureOfNearest | custom_components/ble_monitor/ble_parser/uni_t.py:59-67 | The rounded temperature differs from `raw / 44.5` by less than 0.05. |
| UniT.ReadingTemperature | custom_components/ble_monitor/ble_parser/uni_t.py:58-67 | Every reading's temperature is between 0.0 and 1472.7 degrees and within 0.05 of `raw / 44.5`. |
| UniT.ConversionFactor | custom_components/ble_monitor/ble_parser/uni_t.py:47-55 | The factor is positive, and it is 1.0 for every unit code outside `CONVERT`, so no unit code fails. |
| UniT.Scale | custom_components/ble_monitor/ble_parser/uni_t.py:55 | Multiplying by a positive factor keeps a finite speed finite, an infinity the same infinity, and NaN as NaN. |
| UniT.Slice | custom_components/ble_monitor/ble_parser/uni_t.py:40 | A slice never fails. Its length is the part of `[lo, hi)` inside the data, and its elements are those of the data. |
| UniT.UnformattedMac | custom_components/ble_monitor/ble_parser/uni_t.py:62 | The MAC text has two lowercase hexadecimal characters per byte. |
| UniT.FromHexUnformattedMac | custom_components/ble_monitor/ble_parser/uni_t.py:62 | The MAC text determines the MAC: `bytes.fromhex` of it gives the bytes back. |
| UniT.BleParser.ParseUniT | custom_components/ble_monitor/ble_parser/uni_t.py:22-85 | A call that raises returns that exception and leaves both maps unchanged. A repeated packet, with filtering on, returns `None` and changes nothing. Any other call returns the reading, sets `lpacket_ids[mac]` to the packet id and `adv_priority[mac]` to 5, and leaves every other key unchanged. |
| UniT.BleParser.Record | custom_components/ble_monitor/ble_parser/uni_t.py:74-85 | The de-duplication step. With filtering on and a previous packet id equal to this one, it returns `None` and leaves both maps unchanged. Otherwise it records the packet id and priority 5 for the MAC and returns the reading. |
| UniT.RepeatedAdvertisement | custom_components/ble_monitor/ble_parser/uni_t.py:74-80 | With filtering on, the same advertisement twice raises the same exception twice, or else gives `None` the second time. |
| Utf8.DecodeIgnore | custom_components/ble_monitor/ble_parser/uni_t.py:40 | `decode(errors="ignore")` never gives more characters than it was given bytes. |
| Utf8.DecodeEncode | custom_components/ble_monitor/ble_parser/uni_t.py:40 | Decoding the UTF-8 encoding of any string gives the string back. |
| Utf8.DecodeAscii | custom_components/ble_monitor/ble_parser/uni_t.py:40 | ASCII bytes decode one character per byte, with the same code points. |
| Utf8.DecodeIgnoreAsciiFrom | custom_components/ble_monitor/ble_parser/uni_t.py:40 | An ASCII character appears in the decoded text only if its byte is in the input. |
| PyStr.Find | custom_components/ble_monitor/ble_parser/uni_t.py:41 | `find` returns the first occurrence at or after the start, or -1 when there is none. |
| PyStr.Split | custom_components/ble_monitor/ble_parser/uni_t.py:41 | `split` gives at least one piece, and exactly one when the separator does not occur. |
| PyStr.JoinSplit | custom_components/ble_monitor/ble_parser/uni_t.py:41 | Joining the pieces of `split` with the separator restores the text. |
| PyStr.SplitPiecesFree | custom_components/ble_monitor/ble_parser/uni_t.py:41 | No piece of `split` contains the separator. |
| PyStr.SplitOnePiece | custom_components/ble_monitor/ble_parser/uni_t.py:41 | `split` leaves the text whole exactly when the separator does not occur. |
| PyStr.SplitTokenInTwo | custom_components/ble_monitor/ble_parser/uni_t.py:41 | Splitting on `"M/S"` gives two names exactly when the token occurs once, and then they are the texts before and after it. |
| PyNum.ParseFloat | custom_components/ble_monitor/ble_parser/uni_t.py:42 | `float()` rejects text that is all whitespace. |
| PyNum.ParseFloatBadStart | custom_components/ble_monitor/ble_parser/uni_t.py:42 | `float()` rejects text whose first character cannot begin a literal, such as a control character. |
| PyNum.ParseFloatDecimal | custom_components/ble_monitor/ble_parser/uni_t.py:42 | `float()` reads back a printed decimal `m / 10^scale`, with any sign and any surrounding whitespace. |
| PyNum.ParseInt | custom_components/ble_monitor/ble_parser/uni_t.py:43 | `int()` accepts only text holding a digit. |
| PyNum.ParseIntShow | custom_components/ble_monitor/ble_parser/uni_t.py:43 | `int()` reads back `str(n)` for every integer, with any surrounding whitespace. |
| PyNum.StripPadded | custom_components/ble_monitor/ble_parser/uni_t.py:42-43 | Stripping removes exactly the whitespace around a literal. |
| UniTFrames.DisplayTextParts | custom_components/ble_monitor/ble_parser/uni_t.py:40-43 | A display text (padding, decimal speed, `"M/S"`, unit code) has its token as the only occurrence. The text before it parses to the speed and the text after it to the unit code. |
| UniTFrames.FrameWindow | custom_components/ble_monitor/ble_parser/uni_t.py:36-40 | After a five-byte header, the text window of a frame is its eleven-character ASCII text, and byte 3 is the header's. |
| UniTFrames.FrameTemperature | custom_components/ble_monitor/ble_parser/uni_t.py:58 | A frame's raw temperature is read from the last two characters of its text. |
| UniTFrames.DecodeFrame | custom_components/ble_monitor/ble_parser/uni_t.py:34-71 | Every eleven-character display frame decodes to its reading: the speed scaled by the unit code's factor and the packet id from the header. Its raw temperature is read from the last two characters of the text, which are the last two characters of `str(code)` when it has two or more, a minus sign included, and otherwise the token's `'S'` followed by the code's single character. |
| UniTVectors.TestFrameRaisesSpeedValueError | custom_components/ble_monitor/test/test_uni_t_parser.py:49 | The test's "valid" frame has the window `"\x057  1.52M/S"` and raises at `float()`. |
| UniTVectors.NoTokenFrameRaisesUnpackError | custom_components/ble_monitor/test/test_uni_t_parser.py:99 | The test's frame without a token raises at the unpacking, with one piece. |
| UniTVectors.ZerosFrameRaisesUnpackError | custom_components/ble_monitor/test/test_uni_t_parser.py:85 | The test's frame `12ffaabb` followed by fifteen `'0'` bytes has the window `"00000000000"` and raises at the unpacking, with one piece. |
| UniTVectors.SeventeenByteFrameRaisesUnpackError | custom_components/ble_monitor/test/test_uni_t_parser.py:114 | The test's seventeen-byte frame does not fail on length. It raises at the unpacking, with one piece. |
| UniTVectors.DocstringFrameReading | custom_components/ble_monitor/ble_parser/uni_t.py:26-31 | The docstring's frame `aa bb 10 05 37 "  1.52M/S60"` decodes to packet 0x05, wind speed 0.0077216 m/s and temperature 277.3 degrees. |

## Left out

- The `timestamp` entry (`uni_t.py:70`) reads the wall clock. `Reading` has no such field.
- `UNIT_MAP` and the `unit` variable (`uni_t.py:12-19,44`) are computed and never used, so they are not modelled.
- The checksum byte the docstring mentions (`uni_t.py:31`) is never checked by the code, so it is not modelled.
- The `helpers` module (`to_unformatted_mac`, `to_mac`) is not part of this model.
- UniT.UnformattedMac: `to_unformatted_mac` is taken to give hexadecimal without separators, which the tests settle (`test_uni_t_parser.py:51,60`). Lowercase is an assumption: the tests' only MAC has no hexadecimal letters, so they do not decide the case.
- The construction of the parser object and the dispatcher that calls `parse_uni_t` are not part of this model. The constructor only sets the fields used here.
- Logging: the code writes no log line, so none is modelled.
- PyNum.ParseFloat: magnitudes are exact reals, not IEEE doubles.
  - A literal too large for a double, which Python reads as `inf`, is an exact finite value here.
  - Rounding of the decimal to the nearest double is not modelled.
  - Negative zero is not distinguished from zero.
- PyNum.ParseFloat: only ASCII whitespace and ASCII digits are recognised. Python's `float()` also accepts Unicode whitespace and decimal digits.
- PyNum.ParseInt: only ASCII whitespace and ASCII digits are recognised. Python's `int()` also accepts Unicode whitespace and decimal digits (`int("٦٠") == 60`).
- UniT.Scale: `speed_val * factor` is an exact product of reals, and `1 / 3.6` is exactly 5/18. Python rounds each of these to a double.
- UniT.TemperatureOf: `round(raw / 44.5, 1)` is computed exactly in tenths, without the double division. The result is the exact decimal `k / 10`, while Python returns the double nearest to it (25.9, for one, is not a double).
  - For two-byte raw values this cannot change the result. The exact quotient is at least 1/178 of a tenth away from any rounding tie (`UniT.TemperatureTenthsNearest`). That margin is far larger than the error of one double division.
- Concurrency between calls on the same parser object is not modelled; calls are sequential.
