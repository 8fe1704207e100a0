/**
 * The device side (firmware/breath-controller.cpp): the settings and their
 * EEPROM copy, `process_sysex`, the SysEx receive buffer of `midi_receive`,
 * `midi_send`, the two pressure conversions and the sample step of the
 * main loop.
 */
module Firmware {

  import opened Common
  import opened Text

  const SysexStart: uint8 := 0xf0
  const SysexEnd: uint8 := 0xf7
  const SysexId: uint8 := 0x7d
  /** `sysex_buffer_size`. */
  const BufferSize: nat := 256
  const CurveSize: nat := 128

  /**
   * `struct Settings`. The MIDI message is kept as the byte `process_sysex`
   * stores, since the firmware does not check it against the enumeration.
   */
  datatype Settings = Settings(channel: uint8, message: uint8, control: uint8, gain: uint8, curve: seq<uint8>)

  /** The ranges the comments of `struct Settings` give. */
  predicate InRange(s: Settings) {
    && 1 <= s.channel <= 16
    && s.control <= 127
    && 10 <= s.gain <= 40
    && |s.curve| == CurveSize
    && forall i :: 0 <= i < CurveSize ==> s.curve[i] <= 127
  }

  /** `ee_settings` as the EEPROM is programmed: channel 1, control change, control 2, gain 1.0, identity curve. */
  function Defaults(): (s: Settings)
    ensures InRange(s) && s.message == 0
  {
    Settings(1, 0, 2, 10, seq(CurveSize, i requires 0 <= i < CurveSize => i))
  }

  // ---------------------------------------------------------------------
  // process_sysex
  // ---------------------------------------------------------------------

  /** Where `set_curve` stops copying: the first 0xf7 among the curve bytes from i on, or 128. */
  function CurveEnd(m: seq<uint8>, i: nat): (e: nat)
    requires |m| == BufferSize && i <= CurveSize
    ensures i <= e <= CurveSize
    ensures forall k :: i + 3 <= k < e + 3 ==> m[k] != SysexEnd
    ensures e < CurveSize ==> m[e + 3] == SysexEnd
    decreases CurveSize - i
  {
    if i == CurveSize || m[i + 3] == SysexEnd then i else CurveEnd(m, i + 1)
  }

  /** The curve `set_curve` leaves: the bytes before the end marker, clipped to 127, then the old entries. */
  function SetCurve(c: seq<uint8>, m: seq<uint8>): (r: seq<uint8>)
    requires |c| == CurveSize && |m| == BufferSize
    ensures |r| == CurveSize
    ensures forall i :: 0 <= i < CurveSize ==> r[i] == c[i] || r[i] <= 127
    ensures m[3] == SysexEnd ==> r == c
  {
    var e := CurveEnd(m, 0);
    seq(CurveSize, i requires 0 <= i < CurveSize => if i < e then Min(m[i + 3], 127) else c[i])
  }

  /** The settings after `process_sysex` runs on a message. */
  function Apply(s: Settings, m: seq<uint8>): (r: Settings)
    requires |s.curve| == CurveSize && |m| == BufferSize
    ensures |r.curve| == CurveSize
    ensures m[0] != SysexStart || m[1] != SysexId || m[2] > 4 ==> r == s
    ensures r.curve != s.curve ==> m[2] == 4
  {
    if m[0] != SysexStart || m[1] != SysexId then s
    else if m[2] == 0 then s.(channel := Clamp(m[3], 1, 16))
    else if m[2] == 1 then s.(message := m[3])
    else if m[2] == 2 then s.(control := Min(m[3], 127))
    else if m[2] == 3 then s.(gain := Clamp(m[3], 10, 40))
    else if m[2] == 4 then s.(curve := SetCurve(s.curve, m))
    else s
  }

  /** The message is `save_to_eeprom`, which copies the settings to the EEPROM. */
  predicate Saves(m: seq<uint8>)
    requires |m| == BufferSize
  {
    m[0] == SysexStart && m[1] == SysexId && m[2] == 5
  }

  /** `set_curve` writes exactly the entries before the end marker, each clipped to 127. */
  lemma SetCurveWrites(c: seq<uint8>, m: seq<uint8>, i: nat)
    requires |c| == CurveSize && |m| == BufferSize && i < CurveSize
    ensures (forall k :: 3 <= k <= i + 3 ==> m[k] != SysexEnd) ==> SetCurve(c, m)[i] == Min(m[i + 3], 127)
    ensures (exists k :: 3 <= k <= i + 3 && m[k] == SysexEnd) ==> SetCurve(c, m)[i] == c[i]
    ensures SetCurve(c, m)[i] <= Max(c[i], 127)
  {
    var e := CurveEnd(m, 0);
    if forall k :: 3 <= k <= i + 3 ==> m[k] != SysexEnd {
      assert i < e;
    }
    if exists k :: 3 <= k <= i + 3 && m[k] == SysexEnd {
      var k :| 3 <= k <= i + 3 && m[k] == SysexEnd;
      assert e + 3 <= k;
    }
  }

  /** With no end marker among the 128 curve bytes, the whole curve is the clipped bytes. */
  lemma SetCurveWhole(c: seq<uint8>, m: seq<uint8>)
    requires |c| == CurveSize && |m| == BufferSize
    requires forall j :: 3 <= j < 3 + CurveSize ==> m[j] <= 127
    ensures SetCurve(c, m) == m[3..3 + CurveSize]
  {
    assert CurveEnd(m, 0) == CurveSize;
  }

  /** A message changes at most the one setting its command names, and a foreign or unknown one changes nothing. */
  lemma ApplyChangesOneSetting(s: Settings, m: seq<uint8>)
    requires |s.curve| == CurveSize && |m| == BufferSize
    ensures var r := Apply(s, m);
      && (m[0] != SysexStart || m[1] != SysexId || m[2] > 4 ==> r == s)
      && (r.channel != s.channel ==> m[2] == 0)
      && (r.message != s.message ==> m[2] == 1)
      && (r.control != s.control ==> m[2] == 2)
      && (r.gain != s.gain ==> m[2] == 3)
      && (r.curve != s.curve ==> m[2] == 4)
  {
  }

  /** Whatever the host sends, the ranges of the settings are kept (the message byte has none). */
  lemma ApplyKeepsInRange(s: Settings, m: seq<uint8>)
    requires InRange(s) && |m| == BufferSize
    ensures InRange(Apply(s, m))
  {
    if m[0] == SysexStart && m[1] == SysexId && m[2] == 4 {
      forall i | 0 <= i < CurveSize ensures SetCurve(s.curve, m)[i] <= 127 {
        SetCurveWrites(s.curve, m, i);
      }
    }
  }

  // ---------------------------------------------------------------------
  // midi_receive's buffer
  // ---------------------------------------------------------------------

  /** The USB-MIDI events `midi_receive` distinguishes. */
  datatype EventKind = SysexStart3 | SysexEnd3 | SysexEnd2 | SysexEnd1 | OtherEvent

  /** An event packet read from the OUT endpoint. */
  datatype UsbEvent = UsbEvent(kind: EventKind, data1: uint8, data2: uint8, data3: uint8)

  /** How many data bytes an event carries into the buffer. */
  function Count(k: EventKind): nat
  {
    match k
    case SysexStart3 => 3
    case SysexEnd3 => 3
    case SysexEnd2 => 2
    case SysexEnd1 => 1
    case OtherEvent => 0
  }

  /** The data bytes of an event that go into the buffer. */
  function Payload(e: UsbEvent): (d: seq<uint8>)
    ensures |d| == Count(e.kind)
  {
    [e.data1, e.data2, e.data3][..Count(e.kind)]
  }

  /** The static buffer and `pos`, the 8-bit index of the next free byte. */
  datatype Receiver = Receiver(buffer: seq<uint8>, pos: uint8)

  /** The bytes collected so far. */
  function Collected(r: Receiver): seq<uint8>
    requires |r.buffer| == BufferSize
  {
    r.buffer[..r.pos]
  }

  /** `pos++` on the 8-bit index. */
  function Next(p: uint8): uint8
  {
    (p + 1) % 0x100
  }

  /** The switch of `midi_receive`: the data bytes are stored when that many bytes are free. */
  function Store(r: Receiver, e: UsbEvent): (r': Receiver)
    requires |r.buffer| == BufferSize
    ensures |r'.buffer| == BufferSize
    ensures e.kind == OtherEvent ==> r' == r
    ensures forall i :: 0 <= i < r.pos ==> r'.buffer[i] == r.buffer[i]
    ensures r' != r ==> r'.pos == (r.pos + Count(e.kind)) % 0x100
  {
    var p := r.pos;
    match e.kind
    case SysexStart3 | SysexEnd3 =>
      if BufferSize - p >= 3 then Receiver(r.buffer[p := e.data1][p + 1 := e.data2][p + 2 := e.data3], (p + 3) % 0x100) else r
    case SysexEnd2 =>
      if BufferSize - p >= 2 then Receiver(r.buffer[p := e.data1][p + 1 := e.data2], (p + 2) % 0x100) else r
    case SysexEnd1 =>
      if BufferSize - p >= 1 then Receiver(r.buffer[p := e.data1], (p + 1) % 0x100) else r
    case OtherEvent => r
  }

  /**
   * While the bytes fit below the end of the buffer, an event appends its
   * data bytes to what was collected; one that does not fit is dropped.
   */
  lemma StoreAppends(r: Receiver, e: UsbEvent)
    requires |r.buffer| == BufferSize
    ensures r.pos + Count(e.kind) < BufferSize ==> Collected(Store(r, e)) == Collected(r) + Payload(e)
    ensures r.pos + Count(e.kind) > BufferSize ==> Store(r, e) == r
  {
    var p := r.pos;
    var n := Count(e.kind);
    var s := Store(r, e);
    if p + n < BufferSize {
      assert s.pos == p + n;
      forall i | 0 <= i < p + n ensures Collected(s)[i] == (Collected(r) + Payload(e))[i] {
        if i < p {
          assert s.buffer[i] == r.buffer[i];
        } else {
          assert Payload(e)[i - p] == [e.data1, e.data2, e.data3][i - p];
        }
      }
    }
  }

  /** An event that fills the buffer to its last byte wraps `pos` around to 0. */
  lemma StoreWraps(r: Receiver, e: UsbEvent)
    requires |r.buffer| == BufferSize
    requires r.pos + Count(e.kind) == BufferSize && Count(e.kind) > 0
    ensures Store(r, e).pos == 0
    ensures Store(r, e).buffer[BufferSize - 1] == Payload(e)[Count(e.kind) - 1]
  {
  }

  /**
   * The end test of `midi_receive` as written: the index of the byte it
   * reads, `pos - 1` after the event was stored.
   */
  function EndIndexAsWritten(r: Receiver, e: UsbEvent): (i: int)
    requires |r.buffer| == BufferSize
    ensures i == -1 <==> Store(r, e).pos == 0
  {
    Store(r, e).pos - 1
  }

  /**
   * The index read lies before the buffer when the first event after
   * start-up (or after a message) carries no SysEx bytes, and when a
   * 3-byte event fills the last three bytes.
   */
  lemma EndIndexBeforeBuffer(r: Receiver, e: UsbEvent)
    requires |r.buffer| == BufferSize
    ensures r.pos == 0 && e.kind == OtherEvent ==> EndIndexAsWritten(r, e) == -1
    ensures r.pos == 253 && e.kind == SysexEnd3 ==> EndIndexAsWritten(r, e) == -1
  {
  }

  /** The corrected end test: the last stored byte is 0xf7, looked at only when there is one below `pos`. */
  predicate Completes(r: Receiver)
    requires |r.buffer| == BufferSize
  {
    r.pos > 0 && r.buffer[r.pos - 1] == SysexEnd
  }

  /**
   * A receiver between messages: nothing collected ends with 0xf7. A
   * complete message is handed on and `pos` reset, so the next event is
   * judged on its own bytes.
   */
  predicate Idle(r: Receiver)
    requires |r.buffer| == BufferSize
  {
    !Completes(r)
  }

  /** An event without SysEx bytes never completes a message on an idle receiver. */
  lemma OtherEventNeverCompletes(r: Receiver, e: UsbEvent)
    requires |r.buffer| == BufferSize && Idle(r) && e.kind == OtherEvent
    ensures Store(r, e) == r && !Completes(Store(r, e))
  {
  }

  // ---------------------------------------------------------------------
  // midi_send and the sample conversions
  // ---------------------------------------------------------------------

  datatype MidiCommand = ControlChangeCommand | ChannelPressureCommand | PitchWheelCommand

  /**
   * The event packet `midi_send` writes. The status byte is kept as the
   * command and the 1-based channel `MIDI_CHANNEL` combines.
   */
  datatype MidiPacket = MidiPacket(command: MidiCommand, channel: uint8, data2: uint8, data3: uint8)

  /** `x * 64 mod 2^16`, a 16-bit `x << 6`, is 64 times the ten low bits of x. */
  lemma ShiftSix(x: uint16)
    ensures (x * 64) % 0x1_0000 == 64 * (x % 1024)
  {
    DivModUnique(x * 64, 0x1_0000, x / 1024, 64 * (x % 1024));
  }

  /** `((x & 63) | (x << 6)) & 127` on the 16-bit `int` x, given as its two's-complement bits. */
  function BendLowBits(x: uint16): (r: nat)
    ensures r <= 127
  {
    assert Pow2(7) == 128;
    BitAndLowMask(BitOr(BitAnd(x, 63), (x * 64) % 0x1_0000), 7);
    BitAnd(BitOr(BitAnd(x, 63), (x * 64) % 0x1_0000), 127)
  }

  /** The low data byte of a pitch bend by value: the 6 low bits of x, with bit 0 of x again as bit 6. */
  function BendLow(x: uint16): (r: uint8)
    ensures r <= 127 && r % 64 == x % 64 && r / 64 == x % 2
  {
    x % 64 + 64 * (x % 2)
  }

  /** The bit expression `midi_send` writes is the low data byte. */
  lemma BendLowIsBits(x: uint16)
    ensures BendLowBits(x) == BendLow(x)
  {
    assert Pow2(6) == 64 && Pow2(7) == 128;
    var l := x % 64;
    var h := x % 1024;
    var t := h * 64 + l;
    BitAndLowMask(x, 6);
    assert BitAnd(x, 63) == l;
    ShiftSix(x);
    assert (x * 64) % 0x1_0000 == h * 64;
    BitOrCommutes(l, h * 64);
    BitOrDisjoint(h, l, 6);
    assert BitOr(l, h * 64) == t;
    BitAndLowMask(t, 7);
    assert BendLowBits(x) == t % 128;
    DivModUnique(t, 128, h / 2, 64 * (h % 2) + l);
    DivModUnique(x, 2, 512 * (x / 1024) + h / 2, h % 2);
  }

  /** The data bytes of `pitch_bend_up`. */
  function BendUp(v: uint8): (r: (uint8, uint8))
    ensures r.0 <= 127
    ensures v <= 127 ==> 64 <= r.1 <= 127
  {
    (BendLow(v), (128 + v) / 2)
  }

  /**
   * The data bytes of `pitch_bend_down`: `-value` in 16-bit two's
   * complement, and an arithmetic shift truncated to the 8-bit field.
   */
  function BendDown(v: uint8): (r: (uint8, uint8))
    ensures r.0 <= 127
    ensures v <= 127 ==> r.1 <= 64
    ensures v == 0 ==> r == (0, 64)
  {
    (BendLow(if v == 0 then 0 else 0x1_0000 - v), ((128 - v) / 2) % 0x100)
  }

  /** The 14-bit pitch-bend value two data bytes carry. */
  function Bend14(d: (uint8, uint8)): int
  {
    128 * d.1 + d.0
  }

  /** For a 7-bit value, pitch bend up carries 8192 + 64v + v mod 64: from the centre 8192 to the top 16383. */
  lemma BendUpValue(v: uint8)
    requires v <= 127
    ensures BendUp(v).0 <= 127 && BendUp(v).1 <= 127
    ensures Bend14(BendUp(v)) == 8192 + 64 * v + v % 64
    ensures 8192 <= Bend14(BendUp(v)) <= 16383
  {
    var n: int := v;
    DivModUnique(128 + n, 2, 64 + n / 2, n % 2);
  }

  /** The low data byte of pitch bend down: the bits of -v, with bit 0 copied to bit 6. */
  lemma BendDownLow(v: uint8)
    ensures BendDown(v).0 == (-(v as int)) % 64 + 64 * (v % 2)
  {
    var n: int := v;
    if n > 0 {
      var b := -n;
      DivModUnique(0x1_0000 + b, 64, 1024 + b / 64, b % 64);
      DivModUnique(0x1_0000 + b, 2, 0x8000 - n / 2 - n % 2, n % 2);
    }
  }

  /** The high data byte of pitch bend down for a 7-bit value: half of 128 - v, rounded down. */
  lemma BendDownHigh(v: uint8)
    requires v <= 127
    ensures 2 * BendDown(v).1 == 128 - v - v % 2
  {
    var n: int := v;
    DivModUnique(128 - n, 2, 64 - (n + 1) / 2, n % 2);
  }

  /** For a 7-bit value, pitch bend down carries 8192 - 64v + (-v) mod 64, from the centre downwards. */
  lemma BendDownValue(v: uint8)
    requires v <= 127
    ensures BendDown(v).0 <= 127 && BendDown(v).1 <= 127
    ensures Bend14(BendDown(v)) == 8192 - 64 * v + (-(v as int)) % 64
    ensures 64 <= Bend14(BendDown(v)) <= 8192
  {
    BendDownLow(v);
    BendDownHigh(v);
  }

  /**
   * Value 0 leaves the wheel at the centre both ways; 127 bends up to the
   * top, 16383, but down only to 65, not to the bottom 0.
   */
  lemma BendEnds()
    ensures BendUp(0) == (0, 64) && BendDown(0) == (0, 64)
    ensures BendUp(127) == (127, 127) && Bend14(BendUp(127)) == 16383
    ensures BendDown(127) == (65, 0) && Bend14(BendDown(127)) == 65
  {
  }

  /** A larger value bends further: up rises and down falls with the value. */
  lemma BendMonotone(v: uint8, w: uint8)
    requires v < w <= 127
    ensures Bend14(BendUp(v)) < Bend14(BendUp(w))
    ensures Bend14(BendDown(w)) < Bend14(BendDown(v))
  {
    BendUpValue(v);
    BendUpValue(w);
    BendDownValue(v);
    BendDownValue(w);
  }

  /** The packet `midi_send` writes for a value, or nothing for a message byte outside the enumeration. */
  function Packet(s: Settings, value: uint8): (p: Option<MidiPacket>)
    ensures p.Some? <==> s.message <= 3
    ensures p.Some? ==> p.value.channel == s.channel
  {
    if s.message == 0 then Some(MidiPacket(ControlChangeCommand, s.channel, s.control, value))
    else if s.message == 1 then Some(MidiPacket(ChannelPressureCommand, s.channel, value, 0))
    else if s.message == 2 then Some(MidiPacket(PitchWheelCommand, s.channel, BendUp(value).0, BendUp(value).1))
    else if s.message == 3 then Some(MidiPacket(PitchWheelCommand, s.channel, BendDown(value).0, BendDown(value).1))
    else None
  }

  /** With settings in range and a 7-bit value, every data byte sent is 7-bit and the channel is 1..16. */
  lemma PacketIsMidi(s: Settings, value: uint8)
    requires InRange(s) && s.message <= 3 && value <= 127
    ensures var p := Packet(s, value).value;
      && 1 <= p.channel <= 16 && p.data2 <= 127 && p.data3 <= 127
      && (s.message == 0 ==> p.data3 == value)
      && (s.message == 1 ==> p.data2 == value)
  {
    BendUpValue(value);
    BendDownValue(value);
  }

  /** Dividing a byte's share of the span back by the span never exceeds 255. */
  lemma ScaleBound(a: nat, b: nat)
    requires 0 < a <= b
    ensures a * 255 / b <= 255
    ensures a == b ==> a * 255 / b == 255
  {
    DivMonotone(a * 255, b * 255, b);
    DivModUnique(b * 255, b, 255, 0);
  }

  /** `zero_adjust`: stretches the pressures above the rest reading over 0..255. */
  function ZeroAdjust(value: uint8, zero: uint8): (r: uint8)
    ensures value <= zero ==> r == 0
    ensures value == 255 && zero < 255 ==> r == 255
  {
    if value > zero then
      var a: int := value - zero;
      var b: int := 255 - zero;
      ScaleBound(a, b);
      a * 255 / b
    else 0
  }

  /** `input_gain`: multiplies by the gain in tenths and saturates at 255. */
  function InputGain(value: uint8, gain: uint8): (r: uint8)
    ensures gain == 10 ==> r == value
    ensures gain >= 10 && value == 255 ==> r == 255
    ensures r <= 255
  {
    Min(value * gain / 10, 255)
  }

  /** Integer division keeps order. */
  lemma DivMonotone(x: nat, y: nat, d: nat)
    requires x <= y && d > 0
    ensures x / d <= y / d
  {
    var a := x / d;
    var b := y / d;
    assert d * (a - b) < d by {
      assert d * (a - b) == d * a - d * b;
    }
    MulAwayFromZero(d, a - b);
  }

  /** Both conversions keep the order of pressures: a harder blow never gives a smaller reading. */
  lemma ConversionsMonotone(v: uint8, w: uint8, zero: uint8, gain: uint8)
    requires v <= w
    ensures ZeroAdjust(v, zero) <= ZeroAdjust(w, zero)
    ensures InputGain(v, gain) <= InputGain(w, gain)
  {
    if v > zero {
      assert (v - zero) * 255 <= (w - zero) * 255;
      DivMonotone((v - zero) * 255, (w - zero) * 255, 255 - zero);
    }
    assert v * gain <= w * gain by {
      var t := MulNat(w - v, gain);
      assert w * gain == v * gain + t;
    }
    DivMonotone(v * gain, w * gain, 10);
  }

  /** The curve entry the main loop looks up for a pressure sample: `input_gain(zero_adjust(v)) / 2`. */
  function CurveIndex(pressure: uint8, zero: uint8, gain: uint8): (i: nat)
    ensures i < CurveSize
    ensures pressure <= zero ==> i == 0
    ensures pressure == 255 && zero < 255 && gain >= 10 ==> i == CurveSize - 1
  {
    InputGain(ZeroAdjust(pressure, zero), gain) / 2
  }

  // ---------------------------------------------------------------------
  // The device
  // ---------------------------------------------------------------------

  /** The firmware's static state. */
  class Device {
    var channel: uint8
    var message: uint8
    var control: uint8
    var gain: uint8
    const curve: array<uint8>
    /** `ee_settings`, the copy in EEPROM. */
    var saved: Settings
    /** `midi_receive`'s static buffer and position. */
    const buffer: array<uint8>
    var pos: uint8
    /** `midi_send`'s static `previous_value`. */
    var previousValue: uint8

    /** The sizes of the arrays and of the EEPROM copy. */
    predicate Sized()
      reads this
    {
      && curve.Length == CurveSize
      && buffer.Length == BufferSize
      && curve != buffer
      && |saved.curve| == CurveSize
    }

    /** The receive buffer as a value. */
    function Rx(): Receiver
      reads this, buffer
    {
      Receiver(buffer[..], pos)
    }

    /** Between calls the receiver holds no complete message. */
    predicate Valid()
      reads this, buffer
    {
      Sized() && Idle(Rx())
    }

    /** The RAM copy `settings`. */
    function Current(): Settings
      reads this, curve
    {
      Settings(channel, message, control, gain, curve[..])
    }

    /** Power-up: the statics are zero, then `eeprom_read_block` copies the EEPROM into `settings`. */
    constructor(eeprom: Settings)
      requires |eeprom.curve| == CurveSize
      ensures Valid()
      ensures Current() == eeprom && saved == eeprom
      ensures pos == 0 && previousValue == 0
      ensures forall i :: 0 <= i < BufferSize ==> buffer[i] == 0
    {
      channel := eeprom.channel;
      message := eeprom.message;
      control := eeprom.control;
      gain := eeprom.gain;
      curve := new uint8[CurveSize](i requires 0 <= i < CurveSize => eeprom.curve[i]);
      saved := eeprom;
      buffer := new uint8[BufferSize](_ => 0);
      pos := 0;
      previousValue := 0;
      new;
      assert curve[..] == eeprom.curve;
    }

    /** The `set_curve` loop: copy curve bytes, clipped to 127, up to the end marker or 128 of them. */
    method CopyCurve(m: seq<uint8>)
      requires curve.Length == CurveSize && |m| == BufferSize
      modifies curve
      ensures curve[..] == SetCurve(old(curve[..]), m)
    {
      ghost var e := CurveEnd(m, 0);
      ghost var c := SetCurve(curve[..], m);
      var i := 0;
      while i < CurveSize && m[i + 3] != SysexEnd
        invariant 0 <= i <= e
        invariant forall j :: 0 <= j < i ==> curve[j] == c[j]
        invariant forall j :: i <= j < CurveSize ==> curve[j] == old(curve[j])
      {
        curve[i] := Min(m[i + 3], 127);
        i := i + 1;
      }
      assert i == e;
      assert forall j :: 0 <= j < CurveSize ==> curve[j] == c[j];
    }

    /** `process_sysex` on the receive buffer. */
    method ProcessSysex(m: seq<uint8>)
      requires Sized() && |m| == BufferSize
      modifies this`channel, this`message, this`control, this`gain, this`saved, curve
      ensures Sized()
      ensures Current() == Apply(old(Current()), m)
      ensures saved == if Saves(m) then old(Current()) else old(saved)
    {
      if m[0] != SysexStart || m[1] != SysexId {
        return;
      }
      if m[2] == 0 {
        channel := Clamp(m[3], 1, 16);
      } else if m[2] == 1 {
        message := m[3];
      } else if m[2] == 2 {
        control := Min(m[3], 127);
      } else if m[2] == 3 {
        gain := Clamp(m[3], 10, 40);
      } else if m[2] == 4 {
        CopyCurve(m);
      } else if m[2] == 5 {
        saved := Current();
      }
    }

    /** `buffer[pos++] = b`. */
    method Put(b: uint8)
      requires buffer.Length == BufferSize
      modifies this`pos, buffer
      ensures Rx() == Receiver(old(buffer[..])[old(pos) := b], Next(old(pos)))
    {
      buffer[pos] := b;
      pos := Next(pos);
    }

    /** The switch of `midi_receive`: stores the event's data bytes when they fit. */
    method StoreEvent(e: UsbEvent)
      requires buffer.Length == BufferSize
      modifies this`pos, buffer
      ensures Rx() == Store(old(Rx()), e)
    {
      ghost var b := buffer[..];
      ghost var p: int := pos;
      match e.kind {
        case SysexStart3 | SysexEnd3 =>
          if BufferSize - pos >= 3 {
            Put(e.data1);
            assert pos == p + 1;
            Put(e.data2);
            assert pos == p + 2;
            Put(e.data3);
            assert Rx() == Receiver(b[p := e.data1][p + 1 := e.data2][p + 2 := e.data3], (p + 3) % 0x100);
          }
        case SysexEnd2 =>
          if BufferSize - pos >= 2 {
            Put(e.data1);
            assert pos == p + 1;
            Put(e.data2);
            assert Rx() == Receiver(b[p := e.data1][p + 1 := e.data2], (p + 2) % 0x100);
          }
        case SysexEnd1 =>
          if BufferSize - pos >= 1 {
            Put(e.data1);
          }
        case OtherEvent =>
      }
    }

    /**
     * `midi_receive` with the end test corrected to look at the last
     * stored byte only when there is one: stores the event's bytes, and
     * when they end with 0xf7 runs `process_sysex` on the buffer and
     * starts over.
     */
    method MidiReceive(configured: bool, received: bool, e: UsbEvent)
      requires Valid()
      modifies this`pos, buffer, this`channel, this`message, this`control, this`gain, this`saved, curve
      ensures Valid()
      ensures var r := if configured && received then Store(old(Rx()), e) else old(Rx());
        && buffer[..] == r.buffer
        && (if Completes(r) then
              && pos == 0
              && Current() == Apply(old(Current()), r.buffer)
              && saved == (if Saves(r.buffer) then old(Current()) else old(saved))
            else
              && pos == r.pos
              && Current() == old(Current())
              && saved == old(saved))
    {
      if !configured || !received {
        return;
      }
      StoreEvent(e);
      if pos > 0 && buffer[pos - 1] == SysexEnd {
        ProcessSysex(buffer[..]);
        pos := 0;
      }
    }

    /**
     * `midi_send`: nothing when the value repeats the last one sent, when
     * the device is not configured or the IN endpoint is not ready, or when
     * the message byte is outside the enumeration; otherwise the packet for
     * the value, which then becomes the last one sent.
     */
    method MidiSend(value: uint8, configured: bool, ready: bool) returns (sent: Option<MidiPacket>)
      modifies this`previousValue
      ensures sent == if value == old(previousValue) || !configured || !ready then None else Packet(Current(), value)
      ensures previousValue == if sent.Some? then value else old(previousValue)
    {
      if value == previousValue || !configured || !ready {
        return None;
      }
      if message == 0 {
        sent := Some(MidiPacket(ControlChangeCommand, channel, control, value));
      } else if message == 1 {
        sent := Some(MidiPacket(ChannelPressureCommand, channel, value, 0));
      } else if message == 2 {
        var d := BendUp(value);
        sent := Some(MidiPacket(PitchWheelCommand, channel, d.0, d.1));
      } else if message == 3 {
        var d := BendDown(value);
        sent := Some(MidiPacket(PitchWheelCommand, channel, d.0, d.1));
      } else {
        return None;
      }
      previousValue := value;
    }

    /**
     * One pass of the main loop with a new pressure sample: convert, look
     * the value up in the curve, set the LED brightness `OCR0A` (an 8-bit
     * register) to twice the value, and send it.
     */
    method Sample(pressure: uint8, zero: uint8, configured: bool, ready: bool) returns (led: uint8, sent: Option<MidiPacket>)
      requires Sized()
      modifies this`previousValue
      ensures var v := curve[CurveIndex(pressure, zero, gain)];
        && led == (2 * v) % 0x100
        && sent == (if v == old(previousValue) || !configured || !ready then None else Packet(Current(), v))
        && previousValue == if sent.Some? then v else old(previousValue)
    {
      var v := ZeroAdjust(pressure, zero);
      v := InputGain(v, gain);
      v := curve[v / 2];
      led := (2 * v as int) % 0x100;
      sent := MidiSend(v, configured, ready);
    }
  }

  /** With settings in range the value sent is 7-bit and the LED gets exactly twice it. */
  lemma SampleInRange(s: Settings, pressure: uint8, zero: uint8)
    requires InRange(s)
    ensures var v := s.curve[CurveIndex(pressure, zero, s.gain)];
      && v <= 127 && (2 * v) % 0x100 == 2 * v
      && (pressure <= zero ==> v == s.curve[0])
      && (pressure == 255 && zero < 255 ==> v == s.curve[CurveSize - 1])
  {
  }
}
