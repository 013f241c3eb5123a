/** Frames as the UT363BT sends them, and what `parse_uni_t` makes of them.

    The device shows its reading as right-aligned text such as `"  1.52M/S60"`:
    a decimal speed, the token `"M/S"` and the unit code, eleven characters in
    all, carried in bytes 5 to 15 of the manufacturer data. */
module UniTFrames {
  import opened Utf8
  import opened PyStr
  import opened PyNum
  import opened UniT

  /** The display text: padding, the speed with `scale` decimals, the token and the unit code. */
  function DisplayText(pad: string, negative: bool, m: nat, scale: nat, code: int): string {
    pad + DecimalText(negative, m, scale) + Token + ShowInt(code)
  }

  /** Manufacturer data: five header bytes, the display text, then anything. */
  function Frame(header: seq<uint8>, text: string, tail: seq<uint8>): seq<uint8> {
    header + Encode(text) + tail
  }

  /** A text with no `'M'` around a single token has that token as its only occurrence. */
  lemma OnlyTokenBetween(a: string, b: string)
    requires NoTokenStart(a) && NoTokenStart(b)
    ensures OnlyOccurrence(a + Token + b, |a|)
  {
    var s := a + Token + b;
    assert s[|a|..|a| + 3] == Token;
    forall j | 0 <= j <= |s| && OccursAt(s, Token, j) ensures j == |a| {
      assert s[j] == s[j..j + 3][0] == 'M';
      assert s[|a| + 1] == '/' && s[|a| + 2] == 'S';
    }
  }

  /** The speed part of a display text: spaces, digits, a point and a sign. */
  lemma SpeedTextChars(pad: string, negative: bool, m: nat, scale: nat)
    requires AllSpace(pad)
    ensures var a := pad + DecimalText(negative, m, scale);
      forall k :: 0 <= k < |a| ==> IsSpace(a[k]) || IsDigit(a[k]) || a[k] == '.' || a[k] == '-'
  {
    var d := DecimalText(negative, m, scale);
    var a := pad + d;
    forall k | 0 <= k < |a| ensures IsSpace(a[k]) || IsDigit(a[k]) || a[k] == '.' || a[k] == '-' {
      if k >= |pad| {
        assert a[k] == d[k - |pad|];
      }
    }
  }

  /** Which characters a display text holds. */
  lemma DisplayTextChars(pad: string, negative: bool, m: nat, scale: nat, code: int)
    requires AllSpace(pad)
    ensures var s := DisplayText(pad, negative, m, scale, code);
      forall k :: 0 <= k < |s| ==> s[k] as int < 0x80
    ensures NoTokenStart(pad + DecimalText(negative, m, scale)) && NoTokenStart(ShowInt(code))
  {
    ShowIntChars(code);
    SpeedTextChars(pad, negative, m, scale);
    var a := pad + DecimalText(negative, m, scale);
    var b := ShowInt(code);
    var s := a + Token + b;
    assert s == DisplayText(pad, negative, m, scale, code);
    forall k | 0 <= k < |s| ensures s[k] as int < 0x80 {
      if k < |a| {
        assert s[k] == a[k];
      } else if k < |a| + 3 {
        assert s[k] == Token[k - |a|];
      } else {
        assert s[k] == b[k - |a| - 3];
      }
    }
  }

  /** The text window of a frame is its display text. */
  lemma FrameWindow(header: seq<uint8>, text: string, tail: seq<uint8>)
    requires |header| == 5 && |text| == 11
    requires forall k :: 0 <= k < |text| ==> text[k] as int < 0x80
    ensures TextWindow(Frame(header, text, tail)) == text
    ensures |Frame(header, text, tail)| >= 16 && Frame(header, text, tail)[3] == header[3]
  {
    EncodeAscii(text);
    assert Slice(Frame(header, text, tail), 5, 16) == Encode(text);
    DecodeEncode(text);
  }

  /** Bytes 14 and 15 of a frame are the last two characters of its text. */
  lemma FrameTemperature(header: seq<uint8>, text: string, tail: seq<uint8>)
    requires |header| == 5 && |text| == 11
    requires forall k :: 0 <= k < |text| ==> text[k] as int < 0x80
    ensures RawTemperature(Frame(header, text, tail)) == text[9] as int + 256 * text[10] as int
  {
    var frame := Frame(header, text, tail);
    EncodeAscii(text);
    RawTemperatureBytes(frame);
    assert frame[14] as int == Encode(text)[9] as int == text[9] as int;
    assert frame[15] as int == Encode(text)[10] as int == text[10] as int;
  }

  /** The text before the token of a display text parses to its speed. */
  lemma DisplayTextSpeed(pad: string, negative: bool, m: nat, scale: nat, code: int)
    requires AllSpace(pad)
    ensures var i := |pad + DecimalText(negative, m, scale)|;
      ParseFloat(DisplayText(pad, negative, m, scale, code)[..i])
        == Some(Finite(Signed(negative, Ratio(m, Pow10(scale)))))
  {
    var speedText := pad + DecimalText(negative, m, scale);
    assert DisplayText(pad, negative, m, scale, code)[..|speedText|] == speedText;
    ParseFloatDecimalPadLeft(negative, m, scale, pad);
  }

  /** The text after the token of a display text parses to its unit code. */
  lemma DisplayTextUnit(pad: string, negative: bool, m: nat, scale: nat, code: int)
    ensures var i := |pad + DecimalText(negative, m, scale)|;
      ParseInt(DisplayText(pad, negative, m, scale, code)[i + |Token|..]) == Some(code)
  {
    var prefix := pad + DecimalText(negative, m, scale) + Token;
    var text := DisplayText(pad, negative, m, scale, code);
    assert text == prefix + ShowInt(code);
    assert text[|prefix|..] == [] + ShowInt(code) + [];
    ParseIntShow(code, [], []);
  }

  /** The two texts around the token of a display text, and the numbers they parse to. */
  lemma DisplayTextParts(pad: string, negative: bool, m: nat, scale: nat, code: int)
    requires AllSpace(pad)
    ensures var text := DisplayText(pad, negative, m, scale, code);
      var i := |pad + DecimalText(negative, m, scale)|;
      && OnlyOccurrence(text, i)
      && ParseFloat(text[..i]) == Some(Finite(Signed(negative, Ratio(m, Pow10(scale)))))
      && ParseInt(text[i + |Token|..]) == Some(code)
  {
    var speedText := pad + DecimalText(negative, m, scale);
    DisplayTextChars(pad, negative, m, scale, code);
    OnlyTokenBetween(speedText, ShowInt(code));
    DisplayTextSpeed(pad, negative, m, scale, code);
    DisplayTextUnit(pad, negative, m, scale, code);
  }

  /** A frame whose eleven-character text has a single token between a `float`
      and an `int` decodes to the reading those two numbers give. */
  lemma DecodeFrameText(header: seq<uint8>, text: string, tail: seq<uint8>, mac: seq<uint8>, rssi: int,
                        i: int, speed: Float, code: int)
    requires |header| == 5 && |text| == 11
    requires forall k :: 0 <= k < |text| ==> text[k] as int < 0x80
    requires OnlyOccurrence(text, i)
    requires ParseFloat(text[..i]) == Some(speed) && ParseInt(text[i + |Token|..]) == Some(code)
    ensures Decode(Frame(header, text, tail), mac, rssi) ==
      Ok(Reading(UnformattedMac(mac), DeviceType, Firmware, header[3],
                 Scale(speed, ConversionFactor(code)),
                 TemperatureOf(RawTemperature(Frame(header, text, tail))), true, rssi))
  {
    FrameWindow(header, text, tail);
    DecodeSingleToken(Frame(header, text, tail), mac, rssi, text, i, speed, code);
  }

  /** Decoding a frame that carries a display text gives back its reading: the
      speed scaled by the factor of its unit code and the packet id from the
      header. The temperature comes from bytes 14 and 15, which here are the
      last two characters of the text: the last two characters of `str(code)`
      when it has two or more (a minus sign counts), and otherwise the token's
      `'S'` followed by the code's single character. */
  lemma DecodeFrame(header: seq<uint8>, pad: string, negative: bool, m: nat, scale: nat,
                    code: int, text: string, tail: seq<uint8>, mac: seq<uint8>, rssi: int)
    requires |header| == 5 && AllSpace(pad)
    requires text == DisplayText(pad, negative, m, scale, code) && |text| == 11
    ensures Decode(Frame(header, text, tail), mac, rssi) ==
      Ok(Reading(UnformattedMac(mac), DeviceType, Firmware, header[3],
                 Scale(Finite(Signed(negative, Ratio(m, Pow10(scale)))), ConversionFactor(code)),
                 TemperatureOf(RawTemperature(Frame(header, text, tail))), true, rssi))
    ensures RawTemperature(Frame(header, text, tail)) == text[9] as int + 256 * text[10] as int
  {
    var speed := Signed(negative, Ratio(m, Pow10(scale)));
    DisplayTextChars(pad, negative, m, scale, code);
    DisplayTextParts(pad, negative, m, scale, code);
    DecodeFrameText(header, text, tail, mac, rssi, |pad + DecimalText(negative, m, scale)|, Finite(speed), code);
    FrameTemperature(header, text, tail);
  }
}
