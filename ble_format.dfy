/** The pure helpers of the BLE core: the display form of a link-layer
    address (`addr_to_str`) and the manufacturer filter that picks the
    devices to connect to. */
module BleFormat {
  import opened Common

  /** A 6-byte link-layer address, least significant byte first, as the
      radio stack stores it. */
  type Addr = a: seq<Byte> | |a| == 6 witness [0, 0, 0, 0, 0, 0]

  /** The company identifier that selects devices for connection. */
  const AppleManufacturerId := 0x004C

  /** One uppercase hexadecimal digit. */
  function HexDigit(n: int): (c: char)
    requires 0 <= n < 16
  {
    if n < 10 then ('0' as int + n) as char else ('A' as int + n - 10) as char
  }

  /** The value of an uppercase hexadecimal digit; None for any other character. */
  function HexValue(c: char): (r: Option<int>)
    ensures r.Some? ==> 0 <= r.value < 16
  {
    if '0' <= c <= '9' then Some(c as int - '0' as int)
    else if 'A' <= c <= 'F' then Some(c as int - 'A' as int + 10)
    else None
  }

  lemma HexDigitRoundTrip(n: int)
    requires 0 <= n < 16
    ensures HexValue(HexDigit(n)) == Some(n)
  {
  }

  /** `%02X` of a byte: two uppercase hexadecimal digits, high nibble first. */
  function ByteHex(b: Byte): (r: string)
  {
    [HexDigit(b / 16), HexDigit(b % 16)]
  }

  /** The inverse of ByteHex on two-character strings. */
  function ParseByteHex(s: string): (r: Option<Byte>)
    requires |s| == 2
  {
    match (HexValue(s[0]), HexValue(s[1]))
    case (Some(hi), Some(lo)) => Some(hi * 16 + lo)
    case _ => None
  }

  lemma ByteHexRoundTrip(b: Byte)
    ensures ParseByteHex(ByteHex(b)) == Some(b)
  {
    HexDigitRoundTrip(b / 16);
    HexDigitRoundTrip(b % 16);
  }

  /** `addr_to_str`: `"%02X:%02X:%02X:%02X:%02X:%02X"` of the address bytes in
      reverse order, so that the most significant byte comes first. */
  function AddrToStr(a: Addr): (r: string)
    ensures |r| == 17
    ensures forall k :: 0 <= k < 5 ==> r[3 * k + 2] == ':'
    ensures forall k :: 0 <= k < 6 ==> r[3 * k..3 * k + 2] == ByteHex(a[5 - k])
  {
    ByteHex(a[5]) + ":" + ByteHex(a[4]) + ":" + ByteHex(a[3]) + ":" +
    ByteHex(a[2]) + ":" + ByteHex(a[1]) + ":" + ByteHex(a[0])
  }

  /** Reads a display string of seventeen characters back into the address
      it was produced from; None when any group is not two hexadecimal digits
      or a separator is not a colon. */
  function ParseAddr(s: string): (r: Option<Addr>)
  {
    if |s| != 17 || exists k :: 0 <= k < 5 && s[3 * k + 2] != ':' then None
    else
      match (ParseByteHex(s[0..2]), ParseByteHex(s[3..5]), ParseByteHex(s[6..8]),
             ParseByteHex(s[9..11]), ParseByteHex(s[12..14]), ParseByteHex(s[15..17]))
      case (Some(b5), Some(b4), Some(b3), Some(b2), Some(b1), Some(b0)) =>
        Some([b0, b1, b2, b3, b4, b5])
      case _ => None
  }

  /** The display form loses nothing: parsing it gives back the address. */
  lemma AddrToStrRoundTrip(a: Addr)
    ensures ParseAddr(AddrToStr(a)) == Some(a)
  {
    var s := AddrToStr(a);
    assert s[0..2] == ByteHex(a[5]) by { assert s[3 * 0..3 * 0 + 2] == ByteHex(a[5 - 0]); }
    assert s[3..5] == ByteHex(a[4]) by { assert s[3 * 1..3 * 1 + 2] == ByteHex(a[5 - 1]); }
    assert s[6..8] == ByteHex(a[3]) by { assert s[3 * 2..3 * 2 + 2] == ByteHex(a[5 - 2]); }
    assert s[9..11] == ByteHex(a[2]) by { assert s[3 * 3..3 * 3 + 2] == ByteHex(a[5 - 3]); }
    assert s[12..14] == ByteHex(a[1]) by { assert s[3 * 4..3 * 4 + 2] == ByteHex(a[5 - 4]); }
    assert s[15..17] == ByteHex(a[0]) by { assert s[3 * 5..3 * 5 + 2] == ByteHex(a[5 - 5]); }
    ByteHexRoundTrip(a[0]);
    ByteHexRoundTrip(a[1]);
    ByteHexRoundTrip(a[2]);
    ByteHexRoundTrip(a[3]);
    ByteHexRoundTrip(a[4]);
    ByteHexRoundTrip(a[5]);
    assert [a[0], a[1], a[2], a[3], a[4], a[5]] == a;
  }

  /** Distinct addresses never share a display name. */
  lemma AddrToStrInjective(a: Addr, b: Addr)
    requires AddrToStr(a) == AddrToStr(b)
    ensures a == b
  {
    AddrToStrRoundTrip(a);
    AddrToStrRoundTrip(b);
  }

  /** The address stored as AA BB CC DD EE FF is shown as "FF:EE:DD:CC:BB:AA". */
  lemma AddrToStrExample()
    ensures AddrToStr([0xAA, 0xBB, 0xCC, 0xDD, 0xEE, 0xFF]) == "FF:EE:DD:CC:BB:AA"
  {
  }

  /** The 16-bit company identifier at the head of manufacturer data, read
      little-endian: `(mfg_data[1] << 8) | mfg_data[0]`. */
  function CompanyId(mfg: seq<Byte>): (id: int)
    requires |mfg| >= 2
    ensures 0 <= id < 0x1_0000
    ensures id % 256 == mfg[0] && id / 256 == mfg[1]
  {
    mfg[1] as int * 256 + mfg[0] as int
  }

  /** The connect filter: manufacturer data of at least two bytes whose
      company identifier is Apple's. Absent data is the empty sequence. */
  predicate IsAppleDevice(mfg: seq<Byte>)
  {
    |mfg| >= 2 && CompanyId(mfg) == AppleManufacturerId
  }

  /** The filter in terms of the bytes on the air: 0x4C then 0x00. */
  lemma IsAppleDeviceBytes(mfg: seq<Byte>)
    ensures IsAppleDevice(mfg) <==> |mfg| >= 2 && mfg[0] == 0x4C && mfg[1] == 0x00
  {
    if |mfg| >= 2 && mfg[0] == 0x4C && mfg[1] == 0x00 {
      assert CompanyId(mfg) == 0x4C;
    }
  }
}
