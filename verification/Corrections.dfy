/** DC and IQ correction and frequency of lib/fcd_application.c: range checks, wire format and round trips. */
module Corrections {
  import opened Bytes
  import opened Transport
  import opened Flasher

  const CMD_SET_FREQUENCY_HZ: Byte := 101
  const CMD_GET_FREQUENCY_HZ: Byte := 102
  const CMD_SET_DC_CORR: Byte := 106
  const CMD_GET_DC_CORR: Byte := 107
  const CMD_SET_IQ_CORR: Byte := 108
  const CMD_GET_IQ_CORR: Byte := 109

  type Int32 = x: int | -0x8000_0000 <= x < 0x8000_0000
  type Int16 = x: int | -0x8000 <= x < 0x8000

  /** Conversion to int16_t and from it to uint16_t. */
  function ToInt16(x: int): Int16 {
    var u := x % U16; if u >= 0x8000 then u - U16 else u
  }

  function ToUint16(x: int): Word16 {
    x % U16
  }

  // ---------------------------------------------------------------------------------------------
  // Wire format
  // ---------------------------------------------------------------------------------------------

  function EncodePair(a: Int16, b: int): seq<Byte> {
    Le16(ToUint16(a)) + Le16(ToUint16(b))
  }

  function FirstInt(b: seq<Byte>): Int16
    requires |b| == 4
  {
    ToInt16(FromLe16(b[..2]))
  }

  function SecondWord(b: seq<Byte>): Word16
    requires |b| == 4
  {
    FromLe16(b[2..])
  }

  /** Signed and unsigned second components both come back. */
  lemma PairRoundTrip(a: Int16, b: int)
    requires -0x8000 <= b < U16
    ensures var wire := EncodePair(a, b);
            && |wire| == 4 && FirstInt(wire) == a
            && (b < 0x8000 ==> ToInt16(SecondWord(wire)) == b)
            && (b >= 0 ==> SecondWord(wire) == b)
  {
    var wire := EncodePair(a, b);
    assert wire[..2] == Le16(ToUint16(a)) && wire[2..] == Le16(ToUint16(b));
    Le16RoundTrip(ToUint16(a));
    Le16RoundTrip(ToUint16(b));
  }

  /** The four bytes on the wire: both values modulo 65536, each with its low byte first. */
  lemma PairBytes(a: Int16, b: int)
    ensures EncodePair(a, b) ==
            [a % 0x1_0000 % 0x100, a % 0x1_0000 / 0x100, b % 0x1_0000 % 0x100, b % 0x1_0000 / 0x100]
  {
    LeastFirst(ToUint16(a), 0);
    LeastFirst(ToUint16(b), 0);
  }

  predicate IsInt16(x: int) {
    -0x8000 <= x < 0x8000
  }

  lemma ConversionExact(x: Int32)
    ensures ToInt16(x) == x <==> IsInt16(x)
  {
  }

  function GetPair(w: World, command: Byte): IoResult {
    Io(w, command, 0, [], 4)
  }

  /** A fault-free dongle that answers a get command with what was encoded gives back the values. */
  lemma GetReturnsStored(w: World, command: Byte, a: Int16, b: int)
    requires w.faults == [] && command in {CMD_GET_DC_CORR, CMD_GET_IQ_CORR} && -0x8000 <= b < U16
    requires [command] in w.dev.answers && w.dev.answers[[command]] == EncodePair(a, b)
    ensures var io := GetPair(w, command);
            && io.result == 0 && !io.hung && |io.out| == 4 && FirstInt(io.out) == a
            && (b < 0x8000 ==> ToInt16(SecondWord(io.out)) == b)
            && (b >= 0 ==> SecondWord(io.out) == b)
  {
    assert Packet(command, 0, []) == [command];
    IoComplete(w, command, 0, [], 4);
    IoSound(w, command, 0, [], 4);
    PairRoundTrip(a, b);
  }

  // ---------------------------------------------------------------------------------------------
  // The code. errno is what the call sets it to, hung that it has not returned.
  // ---------------------------------------------------------------------------------------------

  /** Converts two 16-bit variables for the wire and sends them. */
  method SendPair(d: Dongle, host: Host, command: Byte, a: Word16, b: Word16)
    returns (result: int, errno: Errno, hung: bool)
    modifies d
    ensures var io := Io(old(d.Now()), command, 0, Le16(a) + Le16(b), 0);
            result == io.result && errno == io.errno && hung == io.hung && d.Now() == io.world
  {
    Converts16(host, a, Le16(a));
    Converts16(host, b, Le16(b));
    var correction := Store16(host, ConvertLe16(host, a)) + Store16(host, ConvertLe16(host, b));
    result, errno, hung := FcdSet(d, command, correction, 4);
  }

  /** Receives two 16-bit variables. */
  method ReceivePair(d: Dongle, host: Host, command: Byte)
    returns (result: int, errno: Errno, hung: bool, a: Word16, b: Word16)
    modifies d
    ensures var io := GetPair(old(d.Now()), command);
            && result == io.result && errno == io.errno && hung == io.hung && d.Now() == io.world
            && (result == 0 ==> |io.out| == 4 && a == FromLe16(io.out[..2]) && b == SecondWord(io.out))
  {
    var correction := new Byte[4];
    a, b := 0, 0;
    result, errno, hung := FcdGet(d, command, correction, 4);
    if result == 0 {
      ghost var out := GetPair(old(d.Now()), command).out;
      assert correction[..] == out;
      assert correction[0..2] == out[..2] && correction[2..4] == out[2..];
      Converts16(host, 0, correction[0..2]);
      Converts16(host, 0, correction[2..4]);
      a := ConvertLe16(host, Load16(host, correction[0..2]));
      b := ConvertLe16(host, Load16(host, correction[2..4]));
    }
  }

  /** fcd_set_dc_correction rejects exactly the values that do not fit 16 signed bits, without any exchange. */
  method FcdSetDcCorrection(d: Dongle, host: Host, i: Int32, q: Int32)
    returns (result: int, errno: Errno, hung: bool)
    modifies d
    ensures if IsInt16(i) && IsInt16(q)
            then var io := Io(old(d.Now()), CMD_SET_DC_CORR, 0, EncodePair(i, q), 0);
                 result == io.result && errno == io.errno && hung == io.hung && d.Now() == io.world
            else result == -1 && errno == EOVERFLOW && !hung && unchanged(d)
  {
    var c0, c1 := ToInt16(i), ToInt16(q);
    ConversionExact(i);
    ConversionExact(q);
    if i != c0 || q != c1 {
      return -1, EOVERFLOW, false;
    }
    result, errno, hung := SendPair(d, host, CMD_SET_DC_CORR, ToUint16(c0), ToUint16(c1));
  }

  method FcdGetDcCorrection(d: Dongle, host: Host)
    returns (result: int, errno: Errno, hung: bool, i: Int16, q: Int16)
    modifies d
    ensures var io := GetPair(old(d.Now()), CMD_GET_DC_CORR);
            && result == io.result && errno == io.errno && hung == io.hung && d.Now() == io.world
            && (result == 0 ==> |io.out| == 4 && i == FirstInt(io.out) && q == ToInt16(SecondWord(io.out)))
  {
    var a, b;
    result, errno, hung, a, b := ReceivePair(d, host, CMD_GET_DC_CORR);
    i, q := ToInt16(a), ToInt16(b);
  }

  /** fcd_set_iq_correction: a signed phase and an unsigned gain. */
  method FcdSetIqCorrection(d: Dongle, host: Host, phase: Int32, gain: Word32)
    returns (result: int, errno: Errno, hung: bool)
    modifies d
    ensures if IsInt16(phase) && gain < U16
            then var io := Io(old(d.Now()), CMD_SET_IQ_CORR, 0, EncodePair(phase, gain), 0);
                 result == io.result && errno == io.errno && hung == io.hung && d.Now() == io.world
            else result == -1 && errno == EOVERFLOW && !hung && unchanged(d)
  {
    var p, g := ToInt16(phase), ToUint16(gain);
    ConversionExact(phase);
    if phase != p || gain != g {
      return -1, EOVERFLOW, false;
    }
    result, errno, hung := SendPair(d, host, CMD_SET_IQ_CORR, ToUint16(p), g);
  }

  method FcdGetIqCorrection(d: Dongle, host: Host)
    returns (result: int, errno: Errno, hung: bool, phase: Int16, gain: Word16)
    modifies d
    ensures var io := GetPair(old(d.Now()), CMD_GET_IQ_CORR);
            && result == io.result && errno == io.errno && hung == io.hung && d.Now() == io.world
            && (result == 0 ==> |io.out| == 4 && phase == FirstInt(io.out) && gain == SecondWord(io.out))
  {
    var a;
    result, errno, hung, a, gain := ReceivePair(d, host, CMD_GET_IQ_CORR);
    phase := ToInt16(a);
  }

  /** fcd_set_frequency_Hz and fcd_get_frequency_Hz: 32 bits, little-endian. */
  method FcdSetFrequencyHz(d: Dongle, host: Host, freq: Word32) returns (result: int, errno: Errno, hung: bool)
    modifies d
    ensures var io := Io(old(d.Now()), CMD_SET_FREQUENCY_HZ, 0, Le32(freq), 0);
            result == io.result && errno == io.errno && hung == io.hung && d.Now() == io.world
  {
    Converts32(host, freq, Le32(freq));
    result, errno, hung := FcdSet(d, CMD_SET_FREQUENCY_HZ, Store32(host, ConvertLe32(host, freq)), 4);
  }

  method FcdGetFrequencyHz(d: Dongle, host: Host)
    returns (result: int, errno: Errno, hung: bool, freq: Word32)
    modifies d
    ensures var io := Io(old(d.Now()), CMD_GET_FREQUENCY_HZ, 0, [], 4);
            && result == io.result && errno == io.errno && hung == io.hung && d.Now() == io.world
            && (result == 0 ==> |io.out| == 4 && freq == FromLe32(io.out))
  {
    var fHz := new Byte[4];
    freq := 0;
    result, errno, hung := FcdGet(d, CMD_GET_FREQUENCY_HZ, fHz, 4);
    if result == 0 {
      assert fHz[..] == Io(old(d.Now()), CMD_GET_FREQUENCY_HZ, 0, [], 4).out;
      Converts32(host, 0, fHz[..]);
      freq := ConvertLe32(host, Load32(host, fHz[..]));
    }
  }
}
