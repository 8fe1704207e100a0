/**
 * The tool and the device together: the SysEx messages `apply_settings`
 * sends (software/breath-controller.py), placed in the device's receive
 * buffer and run through `process_sysex` (firmware/breath-controller.cpp).
 */
module Link {

  import opened Common
  import opened Text
  import opened Protocol
  import Curve
  import Firmware

  /** Every value of a frame fits in a byte. */
  predicate Bytes(frame: seq<int>) {
    forall i :: 0 <= i < |frame| ==> 0 <= frame[i] < 0x100
  }

  /**
   * The receive buffer after a whole message arrived from position 0:
   * 0xf0, the frame, 0xf7, then what the buffer held before.
   */
  function InBuffer(frame: seq<int>, buf: seq<uint8>): (m: seq<uint8>)
    requires Bytes(frame) && |frame| + 2 <= Firmware.BufferSize && |buf| == Firmware.BufferSize
    ensures |m| == Firmware.BufferSize
    ensures m[0] == Firmware.SysexStart && m[|frame| + 1] == Firmware.SysexEnd
    ensures forall i :: 0 <= i < |frame| ==> m[i + 1] == frame[i]
    ensures m[|frame| + 2..] == buf[|frame| + 2..]
  {
    var data: seq<uint8> := seq(|frame|, i requires 0 <= i < |frame| && Bytes(frame) => frame[i]);
    [Firmware.SysexStart] + data + [Firmware.SysexEnd] + buf[|frame| + 2..]
  }

  /** Frames the device can receive: bytes, and short enough for the buffer with the two markers. */
  predicate Deliverable(frames: seq<seq<int>>) {
    forall k :: 0 <= k < |frames| ==> Bytes(frames[k]) && |frames[k]| + 2 <= Firmware.BufferSize
  }

  /** The device settings after each frame in turn arrived in the buffer and was processed. */
  function Deliver(s: Firmware.Settings, frames: seq<seq<int>>, buf: seq<uint8>): (r: Firmware.Settings)
    requires |s.curve| == Firmware.CurveSize && |buf| == Firmware.BufferSize && Deliverable(frames)
    ensures |r.curve| == Firmware.CurveSize
    ensures Firmware.InRange(s) ==> Firmware.InRange(r)
    decreases |frames|
  {
    if frames == [] then s
    else
      var m := InBuffer(frames[0], buf);
      var s' := Firmware.Apply(s, m);
      assert Firmware.InRange(s) ==> Firmware.InRange(s') by {
        if Firmware.InRange(s) {
          Firmware.ApplyKeepsInRange(s, m);
        }
      }
      Deliver(s', frames[1..], m)
  }

  /** The settings a panel stands for on the device: 1-based channel, message index, control, gain in tenths, curve table. */
  function Configured(f: Form): (s: Firmware.Settings)
    requires ValidForm(f)
    ensures Firmware.InRange(s) && s.message < 4
  {
    Curve.TableShape(f.curve);
    Firmware.Settings(1 + ChannelIndex(f.channelText), MessageIndex(f.message), f.control, f.gain, Curve.Table(f.curve))
  }

  /** A one-argument message sets its field on the device to the argument, when the argument is in that field's range. */
  lemma DeliverOne(s: Firmware.Settings, c: Command, arg: int, buf: seq<uint8>)
    requires |s.curve| == Firmware.CurveSize && |buf| == Firmware.BufferSize
    requires c != SetCurve && c != SaveToEeprom
    requires c == SetMidiChannel ==> 1 <= arg <= 16
    requires c == SetMidiMessage ==> 0 <= arg < 4
    requires c == SetControlNumber ==> 0 <= arg <= 127
    requires c == SetInputGain ==> 10 <= arg <= 40
    ensures Bytes(Frame(c, [arg]))
    ensures var r := Firmware.Apply(s, InBuffer(Frame(c, [arg]), buf));
      match c
      case SetMidiChannel => r == s.(channel := arg)
      case SetMidiMessage => r == s.(message := arg)
      case SetControlNumber => r == s.(control := arg)
      case SetInputGain => r == s.(gain := arg)
      case _ => true
  {
    var m := InBuffer(Frame(c, [arg]), buf);
    assert m[1] == SysexId && m[2] == Code(c) && m[3] == arg;
  }

  /** A curve message with 128 entries of 0..127 sets the device curve to them: none is 0xf7 and none is clipped. */
  lemma DeliverTable(s: Firmware.Settings, t: seq<int>, buf: seq<uint8>)
    requires |s.curve| == Firmware.CurveSize && |buf| == Firmware.BufferSize
    requires |t| == Firmware.CurveSize && forall i :: 0 <= i < |t| ==> 0 <= t[i] <= 127
    ensures Bytes(Frame(SetCurve, t)) && |Frame(SetCurve, t)| == 130
    ensures Firmware.Apply(s, InBuffer(Frame(SetCurve, t), buf)).curve == t
  {
    var fr := Frame(SetCurve, t);
    assert forall i :: 0 <= i < 128 ==> fr[i + 2] == t[i];
    var m := InBuffer(fr, buf);
    assert m[1] == SysexId && m[2] == 4;
    assert forall j :: 3 <= j < 131 ==> m[j] == t[j - 3];
    CurveMessage(s, m);
    assert m[3..131] == t;
  }

  /** A whole curve message in the buffer replaces the curve by its 128 bytes. */
  lemma CurveMessage(s: Firmware.Settings, m: seq<uint8>)
    requires |s.curve| == Firmware.CurveSize && |m| == Firmware.BufferSize
    requires m[0] == Firmware.SysexStart && m[1] == SysexId && m[2] == 4
    requires forall j :: 3 <= j < 3 + Firmware.CurveSize ==> m[j] <= 127
    ensures Firmware.Apply(s, m).curve == m[3..3 + Firmware.CurveSize]
  {
    Firmware.SetCurveWhole(s.curve, m);
  }

  /** Delivering frames one after another: the first, then the rest from the buffer it left. */
  lemma DeliverCons(s: Firmware.Settings, fr: seq<int>, rest: seq<seq<int>>, buf: seq<uint8>)
    requires |s.curve| == Firmware.CurveSize && |buf| == Firmware.BufferSize
    requires Bytes(fr) && |fr| + 2 <= Firmware.BufferSize && Deliverable(rest)
    ensures Deliverable([fr] + rest)
    ensures var m := InBuffer(fr, buf);
      Deliver(s, [fr] + rest, buf) == Deliver(Firmware.Apply(s, m), rest, m)
  {
    assert ([fr] + rest)[1..] == rest;
    forall k | 0 <= k < |[fr] + rest| ensures Bytes(([fr] + rest)[k]) && |([fr] + rest)[k]| + 2 <= Firmware.BufferSize {
      if k > 0 {
        assert ([fr] + rest)[k] == rest[k - 1];
      }
    }
  }

  /** The last message of `apply_settings`, the curve, whatever the buffer held. */
  lemma DeliverCurveLast(s: Firmware.Settings, t: seq<int>, buf: seq<uint8>)
    requires |s.curve| == Firmware.CurveSize && |buf| == Firmware.BufferSize
    requires |t| == Firmware.CurveSize && forall i :: 0 <= i < |t| ==> 0 <= t[i] <= 127
    ensures Deliverable([Frame(SetCurve, t)])
    ensures Deliver(s, [Frame(SetCurve, t)], buf) == s.(curve := t)
  {
    DeliverTable(s, t, buf);
    DeliverCons(s, Frame(SetCurve, t), [], buf);
    assert [Frame(SetCurve, t)] == [Frame(SetCurve, t)] + [];
  }

  /** The gain message, then the curve. */
  lemma DeliverGainThen(s: Firmware.Settings, gain: int, t: seq<int>, buf: seq<uint8>)
    requires |s.curve| == Firmware.CurveSize && |buf| == Firmware.BufferSize && 10 <= gain <= 40
    requires |t| == Firmware.CurveSize && forall i :: 0 <= i < |t| ==> 0 <= t[i] <= 127
    ensures var fs := [Frame(SetInputGain, [gain]), Frame(SetCurve, t)];
      Deliverable(fs) && Deliver(s, fs, buf) == s.(gain := gain, curve := t)
  {
    var f := Frame(SetInputGain, [gain]);
    DeliverOne(s, SetInputGain, gain, buf);
    DeliverCurveLast(s.(gain := gain), t, InBuffer(f, buf));
    DeliverCons(s, f, [Frame(SetCurve, t)], buf);
    assert [f, Frame(SetCurve, t)] == [f] + [Frame(SetCurve, t)];
  }

  /** The control-number message, then the rest. */
  lemma DeliverControlThen(s: Firmware.Settings, control: int, gain: int, t: seq<int>, buf: seq<uint8>)
    requires |s.curve| == Firmware.CurveSize && |buf| == Firmware.BufferSize
    requires 0 <= control <= 127 && 10 <= gain <= 40
    requires |t| == Firmware.CurveSize && forall i :: 0 <= i < |t| ==> 0 <= t[i] <= 127
    ensures var fs := [Frame(SetControlNumber, [control]), Frame(SetInputGain, [gain]), Frame(SetCurve, t)];
      Deliverable(fs) && Deliver(s, fs, buf) == s.(control := control, gain := gain, curve := t)
  {
    var f := Frame(SetControlNumber, [control]);
    var rest := [Frame(SetInputGain, [gain]), Frame(SetCurve, t)];
    DeliverOne(s, SetControlNumber, control, buf);
    DeliverGainThen(s.(control := control), gain, t, InBuffer(f, buf));
    DeliverCons(s, f, rest, buf);
    assert [f] + rest == [f, Frame(SetInputGain, [gain]), Frame(SetCurve, t)];
  }

  /** The message-kind message, then the rest. */
  lemma DeliverMessageThen(s: Firmware.Settings, msg: int, control: int, gain: int, t: seq<int>, buf: seq<uint8>)
    requires |s.curve| == Firmware.CurveSize && |buf| == Firmware.BufferSize
    requires 0 <= msg < 4 && 0 <= control <= 127 && 10 <= gain <= 40
    requires |t| == Firmware.CurveSize && forall i :: 0 <= i < |t| ==> 0 <= t[i] <= 127
    ensures var fs := [Frame(SetMidiMessage, [msg]), Frame(SetControlNumber, [control]),
                       Frame(SetInputGain, [gain]), Frame(SetCurve, t)];
      Deliverable(fs) && Deliver(s, fs, buf) == s.(message := msg, control := control, gain := gain, curve := t)
  {
    var f := Frame(SetMidiMessage, [msg]);
    var rest := [Frame(SetControlNumber, [control]), Frame(SetInputGain, [gain]), Frame(SetCurve, t)];
    DeliverOne(s, SetMidiMessage, msg, buf);
    DeliverControlThen(s.(message := msg), control, gain, t, InBuffer(f, buf));
    DeliverCons(s, f, rest, buf);
    assert [f] + rest == [f, Frame(SetControlNumber, [control]), Frame(SetInputGain, [gain]), Frame(SetCurve, t)];
  }

  /** The five messages of `apply_settings`, with arguments in range, set the five settings to them. */
  lemma DeliverSettings(s: Firmware.Settings, n: int, msg: int, control: int, gain: int, t: seq<int>, buf: seq<uint8>)
    requires |s.curve| == Firmware.CurveSize && |buf| == Firmware.BufferSize
    requires 1 <= n <= 16 && 0 <= msg < 4 && 0 <= control <= 127 && 10 <= gain <= 40
    requires |t| == Firmware.CurveSize && forall i :: 0 <= i < |t| ==> 0 <= t[i] <= 127
    ensures var fs := [Frame(SetMidiChannel, [n]), Frame(SetMidiMessage, [msg]), Frame(SetControlNumber, [control]),
                       Frame(SetInputGain, [gain]), Frame(SetCurve, t)];
      && Deliverable(fs)
      && Deliver(s, fs, buf) == Firmware.Settings(n, msg, control, gain, t)
  {
    var f := Frame(SetMidiChannel, [n]);
    var rest := [Frame(SetMidiMessage, [msg]), Frame(SetControlNumber, [control]), Frame(SetInputGain, [gain]), Frame(SetCurve, t)];
    DeliverOne(s, SetMidiChannel, n, buf);
    DeliverMessageThen(s.(channel := n), msg, control, gain, t, InBuffer(f, buf));
    DeliverCons(s, f, rest, buf);
    assert [f] + rest == [f, Frame(SetMidiMessage, [msg]), Frame(SetControlNumber, [control]), Frame(SetInputGain, [gain]), Frame(SetCurve, t)];
  }

  /** The curve message sets the device curve to the panel's table. */
  lemma DeliverCurve(s: Firmware.Settings, c: seq<Curve.Point>, buf: seq<uint8>)
    requires |s.curve| == Firmware.CurveSize && |buf| == Firmware.BufferSize && Curve.Canonical(c)
    ensures Bytes(Frame(SetCurve, Curve.Table(c))) && |Frame(SetCurve, Curve.Table(c))| == 130
    ensures Firmware.Apply(s, InBuffer(Frame(SetCurve, Curve.Table(c)), buf)).curve == Curve.Table(c)
  {
    Curve.TableShape(c);
    DeliverTable(s, Curve.Table(c), buf);
  }

  /**
   * Whatever the device held before, the five messages of `apply_settings`
   * leave it configured exactly as the panel shows.
   */
  lemma ApplyConfiguresDevice(f: Form, s: Firmware.Settings, buf: seq<uint8>)
    requires ValidForm(f) && |s.curve| == Firmware.CurveSize && |buf| == Firmware.BufferSize
    ensures Deliverable(ApplyFrames(f))
    ensures Deliver(s, ApplyFrames(f), buf) == Configured(f)
  {
    Curve.TableShape(f.curve);
    DeliverSettings(s, 1 + ChannelIndex(f.channelText), MessageIndex(f.message), f.control, f.gain, Curve.Table(f.curve), buf);
  }

  /** The EEPROM's first contents are what the tool's initial panel configures. */
  lemma DefaultsAreInitialForm()
    ensures Configured(InitialForm()) == Firmware.Defaults()
  {
    ChannelIndexOfLabel(1);
    Curve.IdentityTable();
  }
}
