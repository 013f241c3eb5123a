/** Concrete advertisements: the frames of the repository's UNI-T tests and the
    frame drawn in the parser's docstring, and what the decoder as written gives on each. */
module UniTVectors {
  import opened Utf8
  import opened PyStr
  import opened PyNum
  import opened UniT
  import opened UniTFrames

  const TestMac: seq<uint8> := [0x11, 0x22, 0x33, 0x44, 0x55, 0x66]

  /** `14ffaabb1005372020312e35324d2f53363080046c`, the frame the tests treat as valid. */
  const TestFrame: seq<uint8> :=
    [0x14, 0xFF, 0xAA, 0xBB, 0x10, 0x05, 0x37, 0x20, 0x20, 0x31, 0x2E,
     0x35, 0x32, 0x4D, 0x2F, 0x53, 0x36, 0x30, 0x80, 0x04, 0x6C]

  lemma TestFrameWindow()
    ensures TextWindow(TestFrame) == "\U{5}7  1.52M/S"
  {
    var bytes: seq<uint8> := [0x05, 0x37, 0x20, 0x20, 0x31, 0x2E, 0x35, 0x32, 0x4D, 0x2F, 0x53];
    assert Slice(TestFrame, 5, 16) == bytes;
    DecodeAsciiText(bytes, "\U{5}7  1.52M/S");
  }

  lemma TestFrameText()
    ensures OnlyOccurrence("\U{5}7  1.52M/S", 8)
    ensures "\U{5}7  1.52M/S"[..8] == "\U{5}7  1.52"
    ensures ParseFloat("\U{5}7  1.52") == None
  {
    OnlyTokenBetween("\U{5}7  1.52", "");
    assert "\U{5}7  1.52" + Token + "" == "\U{5}7  1.52M/S";
    ParseFloatBadStart("\U{5}7  1.52");
  }

  /** Bytes 5 to 15 of the test frame start with a control character and a `'7'`
      and stop after the token, so `float` fails on `"\x057  1.52"`. The window
      is stated again here, beside the error it causes; `TestFrameWindow` keeps
      the byte-level proof of it apart so that each proof on literals stays small. */
  lemma TestFrameRaisesSpeedValueError(rssi: int)
    ensures TextWindow(TestFrame) == "\U{5}7  1.52M/S"
    ensures Decode(TestFrame, TestMac, rssi) == Err(SpeedValueError)
  {
    TestFrameWindow();
    TestFrameText();
    DecodeSpeedFails(TestFrame, TestMac, rssi, 8);
  }

  /** `14ffaabb002020322e373520202020201b01000000`: the text `"  2.75     "` has no token. */
  lemma NoTokenFrameRaisesUnpackError(rssi: int)
    ensures Decode([0x14, 0xFF, 0xAA, 0xBB, 0x00, 0x20, 0x20, 0x32, 0x2E, 0x37, 0x35,
                    0x20, 0x20, 0x20, 0x20, 0x20, 0x1B, 0x01, 0x00, 0x00, 0x00], TestMac, rssi)
      == Err(UnpackError(1))
  {
    NoTokenByte([0x14, 0xFF, 0xAA, 0xBB, 0x00, 0x20, 0x20, 0x32, 0x2E, 0x37, 0x35,
                 0x20, 0x20, 0x20, 0x20, 0x20, 0x1B, 0x01, 0x00, 0x00, 0x00], TestMac, rssi);
  }

  /** `12ffaabb` followed by fifteen `'0'` bytes: the text `"00000000000"` has no token. */
  lemma ZerosFrameRaisesUnpackError(rssi: int)
    ensures Decode([0x12, 0xFF, 0xAA, 0xBB] + seq(15, _ => 0x30), TestMac, rssi) == Err(UnpackError(1))
  {
    NoTokenByte([0x12, 0xFF, 0xAA, 0xBB] + seq(15, _ => 0x30), TestMac, rssi);
  }

  /** `aabbccddeeff00112233445566778899aa`, seventeen bytes: the slice `[14:16]`
      is still full, so nothing fails on length; of bytes 5 to 15, `0xff`,
      `0x88` and `0x99` start no UTF-8 sequence and are dropped, and no `'M'` is left. */
  lemma SeventeenByteFrameRaisesUnpackError(rssi: int)
    ensures Decode([0xAA, 0xBB, 0xCC, 0xDD, 0xEE, 0xFF, 0x00, 0x11, 0x22, 0x33, 0x44,
                    0x55, 0x66, 0x77, 0x88, 0x99, 0xAA], TestMac, rssi) == Err(UnpackError(1))
  {
    NoTokenByte([0xAA, 0xBB, 0xCC, 0xDD, 0xEE, 0xFF, 0x00, 0x11, 0x22, 0x33, 0x44,
                 0x55, 0x66, 0x77, 0x88, 0x99, 0xAA], TestMac, rssi);
  }

  /** The docstring's display text `"  1.52M/S60"`: 1.52 in unit 60 (feet per minute). */
  lemma DocstringText()
    ensures DisplayText("  ", false, 152, 2, 60) == "  1.52M/S60"
  {
    assert ShowNat(152) == "152";
    assert ZeroPadded(152, 3) == "152";
    assert Pointed("152", 2) == "1.52";
    assert ShowNat(60) == "60";
  }

  /** 1.52 feet per minute is 0.0077216 m/s. */
  lemma DocstringSpeed()
    ensures Scale(Finite(Signed(false, Ratio(152, Pow10(2)))), ConversionFactor(60)) == Finite(0.0077216)
  {
    assert Pow10(2) == 100;
    assert ConversionFactor(60) == 0.00508;
  }

  /** The text `"60"` read as a temperature: 12342 / 44.5 rounds to 277.3. */
  lemma DocstringTemperature()
    ensures TemperatureOf(12342) == 277.3
  {
    assert TemperatureTenths(12342) == 2773;
  }

  lemma DocstringMac()
    ensures UnformattedMac(TestMac) == "112233445566"
  {
  }

  /** The frame the docstring draws: `aa bb 10 05 37`, the text `"  1.52M/S60"`
      and a checksum byte. */
  function DocstringFrame(checksum: uint8): seq<uint8> {
    Frame([0xAA, 0xBB, 0x10, 0x05, 0x37], "  1.52M/S60", [checksum])
  }

  /** The docstring frame decodes through its display text. */
  lemma DocstringFrameDecodes(checksum: uint8, rssi: int)
    ensures Decode(DocstringFrame(checksum), TestMac, rssi)
      == Ok(Reading(UnformattedMac(TestMac), DeviceType, Firmware, 0x05,
                    Scale(Finite(Signed(false, Ratio(152, Pow10(2)))), ConversionFactor(60)),
                    TemperatureOf(RawTemperature(DocstringFrame(checksum))), true, rssi))
  {
    DocstringText();
    DecodeFrame([0xAA, 0xBB, 0x10, 0x05, 0x37], "  ", false, 152, 2, 60, "  1.52M/S60", [checksum], TestMac, rssi);
  }

  /** Its temperature bytes 14 and 15 are the characters `'6'` and `'0'`. */
  lemma DocstringFrameTemperature(checksum: uint8)
    ensures RawTemperature(DocstringFrame(checksum)) == 12342
  {
    var text := "  1.52M/S60";
    assert forall k :: 0 <= k < |text| ==> text[k] as int < 0x80;
    FrameTemperature([0xAA, 0xBB, 0x10, 0x05, 0x37], text, [checksum]);
  }

  /** The reading of the docstring frame: packet id `0x05`, the wind speed
      1.52 ft/min in m/s, and a temperature of 277.3 degrees read from the
      unit code's digits. */
  lemma DocstringFrameReading(checksum: uint8, rssi: int)
    ensures Decode(DocstringFrame(checksum), TestMac, rssi)
      == Ok(Reading("112233445566", DeviceType, Firmware, 0x05, Finite(0.0077216), 277.3, true, rssi))
  {
    DocstringFrameDecodes(checksum, rssi);
    DocstringFrameTemperature(checksum);
    DocstringSpeed();
    DocstringTemperature();
    DocstringMac();
  }
}
