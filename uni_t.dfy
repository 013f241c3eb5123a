/** `parse_uni_t`: the UNI-T UT363BT anemometer advertisement parser.

    The parser reads manufacturer-specific data bytes: byte 3 is the packet id,
    bytes 5 to 15 hold ASCII text `"<speed>M/S<unit code>"`, and bytes 14 and 15
    (which are also the last two bytes of that text) hold the temperature,
    little-endian. Nothing handles the exceptions the decode raises (the only
    `try`/`except` turns a first-seen MAC's `KeyError` into `None`), so every
    place where Python raises is an explicit `ParseError` here, distinct from
    the duplicate-advertisement outcome. */
module UniT {
  import opened Utf8
  import opened PyStr
  import opened PyNum

  const DeviceType: string := "UNI\U{2011}T"  // the hyphen is U+2011, a non-breaking hyphen
  const Firmware: string := "UT363BT"
  const AdvPriority: int := 5

  /** Where the parser raises, in source order. */
  datatype ParseError =
    | PacketIndexError         // `mfg_data[3]` on fewer than four bytes: IndexError
    | UnpackError(parts: nat)  // the split text did not give exactly two names: ValueError
    | SpeedValueError          // `float` of the text before the token: ValueError
    | UnitCodeValueError       // `int` of the text after the token: ValueError

  datatype Result<T> = Ok(value: T) | Err(error: ParseError)

  /** The result dictionary, without its wall-clock `timestamp`. */
  datatype Reading = Reading(
    mac: string,
    deviceType: string,
    firmware: string,
    packet: uint8,
    windSpeed: Float,
    temperature: real,
    data: bool,
    rssi: int)

  function Min(a: int, b: int): int {
    if a <= b then a else b
  }

  /** Python's `s[lo:hi]`: never fails, and is shorter (or empty) near the end of `s`. */
  function Slice(s: seq<uint8>, lo: nat, hi: nat): (r: seq<uint8>)
    requires lo <= hi
    ensures |r| == if |s| <= lo then 0 else Min(hi, |s|) - lo
    ensures forall k :: 0 <= k < |r| ==> r[k] == s[lo + k]
  {
    if |s| <= lo then [] else s[lo..Min(hi, |s|)]
  }

  // ---------------------------------------------------------------------------
  // Little-endian integers: `int.from_bytes(bs, "little")` and its inverse.

  function Pow256(n: nat): (p: nat)
    ensures p >= 1
  {
    if n == 0 then 1 else 256 * Pow256(n - 1)
  }

  function FromLittleEndian(bs: seq<uint8>): nat {
    if bs == [] then 0 else bs[0] as nat + 256 * FromLittleEndian(bs[1..])
  }

  /** `n.to_bytes(len, "little")`. */
  function ToLittleEndian(n: nat, len: nat): (bs: seq<uint8>)
    ensures |bs| == len
  {
    if len == 0 then [] else [(n % 256) as uint8] + ToLittleEndian(n / 256, len - 1)
  }

  lemma {:induction false} FromLittleEndianBound(bs: seq<uint8>)
    ensures FromLittleEndian(bs) < Pow256(|bs|)
  {
    if bs != [] {
      FromLittleEndianBound(bs[1..]);
    }
  }

  /** Round trip: reading back the bytes of a number that fits gives the number. */
  lemma {:induction false} LittleEndianRoundTrip(n: nat, len: nat)
    requires n < Pow256(len)
    ensures FromLittleEndian(ToLittleEndian(n, len)) == n
  {
    if len > 0 {
      LittleEndianRoundTrip(n / 256, len - 1);
      assert ToLittleEndian(n, len)[1..] == ToLittleEndian(n / 256, len - 1);
    }
  }

  // ---------------------------------------------------------------------------
  // Temperature.

  /** `int.from_bytes(mfg_data[14:16], "little")`. */
  function RawTemperature(mfg: seq<uint8>): nat {
    FromLittleEndian(Slice(mfg, 14, 16))
  }

  /** What the slice `[14:16]` reads at each length of the data. */
  lemma RawTemperatureBytes(mfg: seq<uint8>)
    ensures RawTemperature(mfg) < 65536
    ensures |mfg| <= 14 ==> RawTemperature(mfg) == 0
    ensures |mfg| == 15 ==> RawTemperature(mfg) == mfg[14] as int
    ensures |mfg| >= 16 ==> RawTemperature(mfg) == mfg[14] as int + 256 * mfg[15] as int
  {
    var w := Slice(mfg, 14, 16);
    FromLittleEndianBound(w);
    if |w| == 2 {
      assert w[1..][1..] == [];
    } else if |w| == 1 {
      assert w[1..] == [];
    }
  }

  /** `round(raw / 44.5, 1)`, in tenths of a degree: the integer nearest to
      `raw * 20 / 89`. No tie can occur, because `40 * raw` is even and
      `89 * (2t + 1)` is odd, so Python's round-half-to-even plays no part. */
  function TemperatureTenths(raw: nat): int {
    (raw * 40 + 89) / 178
  }

  /** The computed tenths lie strictly within half a tenth of `raw / 44.5`. */
  lemma TemperatureTenthsNearest(raw: nat)
    ensures var t := TemperatureTenths(raw);
      89 * (2 * t - 1) < 40 * raw < 89 * (2 * t + 1)
  {
    var n := raw * 40 + 89;
    var q, r := n / 178, n % 178;
    assert n == 178 * q + r && 0 <= r < 178;
    assert r == 2 * (20 * raw - 89 * q + 44) + 1;
  }

  /** The rounding is the nearest tenth: any `t` within half a tenth is the one computed. */
  lemma TemperatureTenthsUnique(raw: nat, t: int)
    requires 89 * (2 * t - 1) <= 40 * raw <= 89 * (2 * t + 1)
    ensures t == TemperatureTenths(raw)
  {
    TemperatureTenthsNearest(raw);
  }

  /** A two-byte reading gives between 0 and 1472.7 degrees. */
  lemma TemperatureTenthsRange(raw: nat)
    requires raw < 65536
    ensures 0 <= TemperatureTenths(raw) <= 14727
  {
  }

  function TemperatureOf(raw: nat): real {
    TemperatureTenths(raw) as real / 10.0
  }

  // ---------------------------------------------------------------------------
  // Wind speed.

  /** `CONVERT`: factor from each unit code to metres per second; `1 / 3.6` is
      written exactly as `5 / 18`. */
  const Convert: map<int, real> :=
    map[40 := 1.0, 50 := 5.0 / 18.0, 60 := 0.00508, 70 := 0.514444, 80 := 0.44704, 90 := 0.3048]

  /** `CONVERT.get(unit_code, 1.0)`: an unknown code is taken as metres per second. */
  function ConversionFactor(code: int): (f: real)
    ensures f > 0.0
    ensures code !in Convert ==> f == 1.0
  {
    if code in Convert then Convert[code] else 1.0
  }

  /** `speed_val * factor` for a positive factor. */
  function Scale(x: Float, factor: real): (r: Float)
    requires factor > 0.0
    ensures r.Finite? <==> x.Finite?
    ensures r.Infinity? ==> x == r
    ensures r.NaN? <==> x.NaN?
  {
    match x
    case Finite(v) => Finite(v * factor)
    case Infinity(negative) => Infinity(negative)
    case NaN => NaN
  }

  // ---------------------------------------------------------------------------
  // MAC address.

  /** The lowercase hexadecimal digit for `d`. */
  function HexDigit(d: nat): (c: char)
    requires d < 16
    ensures IsHexLower(c)
  {
    if d < 10 then ('0' as int + d) as char else ('a' as int + d - 10) as char
  }

  predicate IsHexLower(c: char) {
    '0' <= c <= '9' || 'a' <= c <= 'f'
  }

  /** The MAC as lowercase hexadecimal without separators. */
  function UnformattedMac(mac: seq<uint8>): (s: string)
    ensures |s| == 2 * |mac|
    ensures forall k :: 0 <= k < |s| ==> IsHexLower(s[k])
  {
    if mac == [] then []
    else [HexDigit(mac[0] as int / 16), HexDigit(mac[0] as int % 16)] + UnformattedMac(mac[1..])
  }

  /** The value of a hexadecimal digit, the inverse of `HexDigit`. */
  function HexValue(c: char): (v: nat)
    requires IsHexLower(c)
    ensures v < 16 && HexDigit(v) == c
  {
    if '0' <= c <= '9' then c as int - '0' as int else c as int - 'a' as int + 10
  }

  /** `bytes.fromhex` on lowercase hexadecimal text of even length. */
  function FromHex(s: string): (bs: seq<uint8>)
    requires |s| % 2 == 0 && forall k :: 0 <= k < |s| ==> IsHexLower(s[k])
    ensures |bs| == |s| / 2
  {
    if s == [] then [] else [(16 * HexValue(s[0]) + HexValue(s[1])) as uint8] + FromHex(s[2..])
  }

  /** Round trip: the hexadecimal MAC text determines the MAC bytes. */
  lemma {:induction false} FromHexUnformattedMac(mac: seq<uint8>)
    ensures FromHex(UnformattedMac(mac)) == mac
  {
    if mac != [] {
      var s := UnformattedMac(mac);
      assert s[2..] == UnformattedMac(mac[1..]);
      FromHexUnformattedMac(mac[1..]);
      var b := mac[0] as int;
      HexDigitValue(b / 16);
      HexDigitValue(b % 16);
    }
  }

  lemma HexDigitValue(d: nat)
    requires d < 16
    ensures HexValue(HexDigit(d)) == d
  {
  }

  // ---------------------------------------------------------------------------
  // The decoder: everything `parse_uni_t` computes before its bookkeeping.

  /** `mfg_data[5:16].decode(errors="ignore")`. */
  function TextWindow(mfg: seq<uint8>): string {
    DecodeIgnore(Slice(mfg, 5, 16))
  }

  /** The text half of the decoder: `text.split("M/S")` unpacked into two
      names, then `float()` of the first and `int()` of the second. It fails
      only with the errors of those three steps. */
  function ParseText(w: string): (r: Result<(Float, int)>)
    ensures r.Err? ==> !r.error.PacketIndexError?
  {
    var parts := Split(w, Token);
    if |parts| != 2 then Err(UnpackError(|parts|))
    else
      match ParseFloat(parts[0])
      case None => Err(SpeedValueError)
      case Some(speed) =>
        match ParseInt(parts[1])
        case None => Err(UnitCodeValueError)
        case Some(code) => Ok((speed, code))
  }

  function Decode(mfg: seq<uint8>, mac: seq<uint8>, rssi: int): (r: Result<Reading>)
    ensures r == Err(PacketIndexError) <==> |mfg| < 4
    ensures r.Ok? ==> && r.value.packet == mfg[3]
                      && r.value.deviceType == DeviceType
                      && r.value.firmware == Firmware
                      && r.value.mac == UnformattedMac(mac)
                      && r.value.data
                      && r.value.rssi == rssi
  {
    if |mfg| < 4 then Err(PacketIndexError)
    else
      var packet := mfg[3];
      match ParseText(TextWindow(mfg))
      case Err(e) => Err(e)
      case Ok((speed, code)) =>
        Ok(Reading(
          mac := UnformattedMac(mac),
          deviceType := DeviceType,
          firmware := Firmware,
          packet := packet,
          windSpeed := Scale(speed, ConversionFactor(code)),
          temperature := TemperatureOf(RawTemperature(mfg)),
          data := true,
          rssi := rssi))
  }

  /** How the decoder ends, stated by the occurrences of `"M/S"` in the text
      window instead of by the split: with no single occurrence the unpacking
      fails (with one piece exactly when there is none), and with a single
      occurrence the text before it must be a `float` and the text after it an
      `int`. Past four bytes no failure is an indexing failure. */
  lemma DecodeOutcome(mfg: seq<uint8>, mac: seq<uint8>, rssi: int)
    requires |mfg| >= 4
    ensures var w := TextWindow(mfg);
      (forall i :: !OnlyOccurrence(w, i)) ==>
        && Decode(mfg, mac, rssi).Err?
        && Decode(mfg, mac, rssi).error.UnpackError?
        && (Decode(mfg, mac, rssi).error.parts == 1 <==> !Occurs(w, Token))
    ensures var w := TextWindow(mfg);
      forall i :: OnlyOccurrence(w, i) ==>
        Decode(mfg, mac, rssi) ==
          match ParseFloat(w[..i])
          case None => Err(SpeedValueError)
          case Some(speed) =>
            match ParseInt(w[i + |Token|..])
            case None => Err(UnitCodeValueError)
            case Some(code) =>
              Ok(Reading(UnformattedMac(mac), DeviceType, Firmware, mfg[3],
                         Scale(speed, ConversionFactor(code)),
                         TemperatureOf(RawTemperature(mfg)), true, rssi))
  {
    var w := TextWindow(mfg);
    SplitTokenInTwo(w);
    SplitOnePiece(w, Token);
  }

  /** With a single token, the decoder gives the reading built from the two
      texts around it once both parse. The window is passed as `w`, so that a
      caller who knows the text need not rewrite `TextWindow(mfg)`. */
  lemma DecodeSingleToken(mfg: seq<uint8>, mac: seq<uint8>, rssi: int, w: string, i: int, speed: Float, code: int)
    requires |mfg| >= 4 && TextWindow(mfg) == w && OnlyOccurrence(w, i)
    requires ParseFloat(w[..i]) == Some(speed) && ParseInt(w[i + |Token|..]) == Some(code)
    ensures Decode(mfg, mac, rssi) ==
      Ok(Reading(UnformattedMac(mac), DeviceType, Firmware, mfg[3],
                 Scale(speed, ConversionFactor(code)),
                 TemperatureOf(RawTemperature(mfg)), true, rssi))
  {
    OnlyOccurrenceTwoPieces(w, i);
  }

  /** With a single token, a text before it that is not a `float` raises there. */
  lemma DecodeSpeedFails(mfg: seq<uint8>, mac: seq<uint8>, rssi: int, i: int)
    requires |mfg| >= 4 && OnlyOccurrence(TextWindow(mfg), i)
    requires ParseFloat(TextWindow(mfg)[..i]) == None
    ensures Decode(mfg, mac, rssi) == Err(SpeedValueError)
  {
    OnlyOccurrenceTwoPieces(TextWindow(mfg), i);
  }

  /** Without an `'M'` byte among bytes 5 to 15 the text has no token, and the
      unpacking fails on a single piece. */
  lemma NoTokenByte(mfg: seq<uint8>, mac: seq<uint8>, rssi: int)
    requires |mfg| >= 4
    requires forall k :: 5 <= k < |mfg| && k < 16 ==> mfg[k] != 0x4D
    ensures Decode(mfg, mac, rssi) == Err(UnpackError(1))
  {
    var w := TextWindow(mfg);
    DecodeIgnoreAsciiFrom(Slice(mfg, 5, 16), 'M');
    NoTokenStartNoOccurrence(w);
    SplitOnePiece(w, Token);
  }

  /** No reading is possible below ten bytes: the text starts at byte 5 and needs
      a digit, `"M/S"` and another digit. */
  lemma NoReadingBelowTenBytes(mfg: seq<uint8>, mac: seq<uint8>, rssi: int)
    requires |mfg| < 10
    ensures Decode(mfg, mac, rssi).Err?
  {
    if |mfg| >= 4 {
      JoinSplit(TextWindow(mfg), Token);
    }
  }

  /** The temperature bytes `[14:16]` are the last bytes of the text window
      `[5:16]`: none at 14 bytes, byte 14 at 15, bytes 14 and 15 from 16 on. */
  lemma TemperatureInsideText(mfg: seq<uint8>)
    requires |mfg| >= 14
    ensures Slice(mfg, 14, 16) == Slice(mfg, 5, 16)[9..]
  {
  }

  /** The rounded temperature is within half a tenth of `raw / 44.5`. */
  lemma TemperatureOfNearest(raw: nat)
    ensures -0.05 < TemperatureOf(raw) - raw as real / 44.5 < 0.05
  {
    var k := TemperatureTenths(raw);
    TemperatureTenthsNearest(raw);
    var x, t := raw as real, k as real;
    assert (89 * (2 * k - 1)) as real < (40 * raw) as real < (89 * (2 * k + 1)) as real;
    assert 178.0 * t - 89.0 < 40.0 * x < 178.0 * t + 89.0;
  }

  /** Every reading has a temperature between 0 and 1472.7 degrees, within
      0.05 of `raw / 44.5`. */
  lemma ReadingTemperature(mfg: seq<uint8>, mac: seq<uint8>, rssi: int)
    requires Decode(mfg, mac, rssi).Ok?
    ensures var t := Decode(mfg, mac, rssi).value.temperature;
      && 0.0 <= t <= 1472.7
      && -0.05 < t - RawTemperature(mfg) as real / 44.5 < 0.05
  {
    var raw := RawTemperature(mfg);
    RawTemperatureBytes(mfg);
    TemperatureTenthsRange(raw);
    TemperatureOfNearest(raw);
    assert Decode(mfg, mac, rssi).value.temperature == TemperatureOf(raw);
  }

  // ---------------------------------------------------------------------------
  // The bookkeeping half: the parser object and its duplicate filter.

  /** What a call returns: a reading, `None` for a repeated packet, or the exception raised. */
  datatype Outcome = Parsed(reading: Reading) | Duplicate | Raised(error: ParseError)

  /** The call is a repeat: filtering is on and the MAC's last packet id is this one. */
  predicate IsDuplicate(filterDuplicates: bool, lpacketIds: map<seq<uint8>, uint8>,
                        mac: seq<uint8>, packet: uint8) {
    filterDuplicates && mac in lpacketIds && lpacketIds[mac] == packet
  }

  /** The state `parse_uni_t` uses through `self`. */
  class BleParser {
    var lpacketIds: map<seq<uint8>, uint8>
    var advPriority: map<seq<uint8>, int>
    var filterDuplicates: bool
    var rssi: int

    constructor (filterDuplicates: bool, rssi: int)
      ensures this.filterDuplicates == filterDuplicates && this.rssi == rssi
      ensures lpacketIds == map[] && advPriority == map[]
    {
      this.filterDuplicates := filterDuplicates;
      this.rssi := rssi;
      lpacketIds := map[];
      advPriority := map[];
    }

    /** `parse_uni_t(self, mfg_data, mac)`. Every failure comes before the
        bookkeeping, so a call that raises leaves both tables as they were. */
    method ParseUniT(mfg: seq<uint8>, mac: seq<uint8>) returns (out: Outcome)
      modifies this`lpacketIds, this`advPriority
      ensures Decode(mfg, mac, rssi).Err? ==>
        && out == Raised(Decode(mfg, mac, rssi).error)
        && lpacketIds == old(lpacketIds) && advPriority == old(advPriority)
      ensures Decode(mfg, mac, rssi).Ok? ==>
        var reading := Decode(mfg, mac, rssi).value;
        if IsDuplicate(filterDuplicates, old(lpacketIds), mac, reading.packet) then
          && out == Duplicate
          && lpacketIds == old(lpacketIds) && advPriority == old(advPriority)
        else
          && out == Parsed(reading)
          && lpacketIds == old(lpacketIds)[mac := reading.packet]
          && advPriority == old(advPriority)[mac := AdvPriority]
    {
      var decoded := Decode(mfg, mac, rssi);
      if decoded.Err? {
        return Raised(decoded.error);
      }
      out := Record(mac, decoded.value);
    }

    /** The de-duplication at the end of `parse_uni_t`: a repeated packet id
        gives `None` and changes nothing; otherwise the MAC's packet id and
        advertisement priority are recorded and the reading returned. */
    method Record(mac: seq<uint8>, reading: Reading) returns (out: Outcome)
      modifies this`lpacketIds, this`advPriority
      ensures if IsDuplicate(filterDuplicates, old(lpacketIds), mac, reading.packet) then
          && out == Duplicate
          && lpacketIds == old(lpacketIds) && advPriority == old(advPriority)
        else
          && out == Parsed(reading)
          && lpacketIds == old(lpacketIds)[mac := reading.packet]
          && advPriority == old(advPriority)[mac := AdvPriority]
    {
      var previous: Option<uint8> := if mac in lpacketIds then Some(lpacketIds[mac]) else None;
      if filterDuplicates && previous == Some(reading.packet) {
        return Duplicate;
      }
      lpacketIds := lpacketIds[mac := reading.packet];
      advPriority := advPriority[mac := AdvPriority];
      return Parsed(reading);
    }
  }

  /** With filtering on, the same advertisement twice in a row gives the same
      exception twice, or else `None` the second time. */
  method RepeatedAdvertisement(p: BleParser, mfg: seq<uint8>, mac: seq<uint8>)
    returns (first: Outcome, second: Outcome)
    requires p.filterDuplicates
    modifies p
    ensures first.Raised? ==> second == first
    ensures !first.Raised? ==> second == Duplicate
  {
    first := p.ParseUniT(mfg, mac);
    second := p.ParseUniT(mfg, mac);
  }
}
