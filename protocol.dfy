/**
 * What the configuration tool sends to the device: the SysEx command codes,
 * the MIDI message kinds, the framing of `send_sysex` and the order of the
 * messages `apply_settings` and `save_settings` send
 * (software/breath-controller.py). The same codes are the firmware's
 * `SysExCommand` and `MidiMessage` enumerations.
 */
module Protocol {

  import opened Text
  import Curve

  /** The SysEx manufacturer id. */
  const SysexId: int := 0x7d

  datatype Command =
    | SetMidiChannel
    | SetMidiMessage
    | SetControlNumber
    | SetInputGain
    | SetCurve
    | SaveToEeprom

  /** `SYSEX_COMMANDS[c]`, the same number as the firmware's `SysExCommand`. */
  function Code(c: Command): nat
  {
    match c
    case SetMidiChannel => 0
    case SetMidiMessage => 1
    case SetControlNumber => 2
    case SetInputGain => 3
    case SetCurve => 4
    case SaveToEeprom => 5
  }

  /** The command a code byte names, if any. */
  function CommandOf(n: int): (c: Option<Command>)
    ensures c.Some? <==> 0 <= n <= 5
    ensures c.Some? ==> Code(c.value) == n
  {
    if n == 0 then Some(SetMidiChannel)
    else if n == 1 then Some(SetMidiMessage)
    else if n == 2 then Some(SetControlNumber)
    else if n == 3 then Some(SetInputGain)
    else if n == 4 then Some(SetCurve)
    else if n == 5 then Some(SaveToEeprom)
    else None
  }

  /** Every command has its own code. */
  lemma CodeRoundTrip(c: Command)
    ensures CommandOf(Code(c)) == Some(c)
  {
  }

  datatype MidiMessage = ControlChange | ChannelPressure | PitchBendUp | PitchBendDown

  /** The position in `MIDI_MESSAGES`, which is the firmware's `MidiMessage` value. */
  function MessageIndex(m: MidiMessage): nat
  {
    match m
    case ControlChange => 0
    case ChannelPressure => 1
    case PitchBendUp => 2
    case PitchBendDown => 3
  }

  function MessageOf(i: int): (m: Option<MidiMessage>)
    ensures m.Some? <==> 0 <= i < 4
    ensures m.Some? ==> MessageIndex(m.value) == i
  {
    if i == 0 then Some(ControlChange)
    else if i == 1 then Some(ChannelPressure)
    else if i == 2 then Some(PitchBendUp)
    else if i == 3 then Some(PitchBendDown)
    else None
  }

  /** The key a preset file uses for a message kind. */
  function Key(m: MidiMessage): string
  {
    match m
    case ControlChange => "control_change"
    case ChannelPressure => "channel_pressure"
    case PitchBendUp => "pitch_bend_up"
    case PitchBendDown => "pitch_bend_down"
  }

  /** `v in MIDI_MESSAGES.keys()` and the lookup that follows it. */
  function MessageOfKey(k: string): (m: Option<MidiMessage>)
    ensures m.Some? ==> Key(m.value) == k
    ensures m.None? ==> forall n :: Key(n) != k
  {
    if k == "control_change" then Some(ControlChange)
    else if k == "channel_pressure" then Some(ChannelPressure)
    else if k == "pitch_bend_up" then Some(PitchBendUp)
    else if k == "pitch_bend_down" then Some(PitchBendDown)
    else None
  }

  /** Reading back a written key gives the same message kind. */
  lemma KeyRoundTrip(m: MidiMessage)
    ensures MessageOfKey(Key(m)) == Some(m)
  {
  }

  // ---------------------------------------------------------------------
  // The tool's settings panel
  // ---------------------------------------------------------------------

  /** The values of the MIDI channel combobox, `list(range(1, 17))` shown as text. */
  function ChannelLabels(): (ls: seq<string>)
    ensures |ls| == 16
    ensures forall i :: 0 <= i < 16 ==> ls[i] == FormatNat(i + 1)
  {
    seq(16, i requires 0 <= i < 16 => FormatNat(i + 1))
  }

  /** `combo_midi_channel.current()` for the text the combobox shows. */
  function ChannelIndex(text: string): (i: int)
    ensures -1 <= i < 16
    ensures i >= 0 ==> text == FormatNat(i + 1)
  {
    FindLabel(ChannelLabels(), text)
  }

  /** The label of channel n is found at position n - 1. */
  lemma ChannelIndexOfLabel(n: int)
    requires 1 <= n <= 16
    ensures ChannelIndex(FormatNat(n)) == n - 1
  {
    var ls := ChannelLabels();
    assert ls[n - 1] == FormatNat(n);
    var i := ChannelIndex(FormatNat(n));
    FormatNatInjective(i + 1, n);
  }

  /** A text with a leading zero or a sign is none of the labels. */
  lemma ChannelIndexNotLabel(text: string)
    requires text != [] && (text[0] == '0' || text[0] == '+' || text[0] == '-')
    ensures ChannelIndex(text) == -1
  {
  }

  /**
   * The state of the settings panel: the text of the channel combobox, the
   * message kind, the control-number index, the gain in tenths and the curve.
   */
  datatype Form = Form(
    channelText: string,
    message: MidiMessage,
    control: int,
    gain: int,
    curve: seq<Curve.Point>)

  /** A channel is selected, and the control number and the gain (in tenths) are in range. */
  predicate SettingsInRange(channelText: string, control: int, gain: int) {
    && 0 <= ChannelIndex(channelText)
    && 0 <= control <= 127
    && 10 <= gain <= 40
  }

  /** What every handler keeps true of the panel. */
  predicate ValidForm(f: Form) {
    SettingsInRange(f.channelText, f.control, f.gain) && Curve.Canonical(f.curve)
  }

  /** Replacing the curve by a canonical one keeps the panel valid. */
  lemma ValidFormCurve(f: Form, c: seq<Curve.Point>)
    requires ValidForm(f) && Curve.Canonical(c)
    ensures ValidForm(f.(curve := c))
  {
  }

  /** The panel as the tool starts: channel 1, control change, control number 2, gain 1.0, identity curve. */
  function InitialForm(): (f: Form)
    ensures ValidForm(f)
  {
    ChannelIndexOfLabel(1);
    Curve.FixedIdentity();
    Form(FormatNat(1), ControlChange, 2, 10, Curve.Identity)
  }

  // ---------------------------------------------------------------------
  // Framing and message order
  // ---------------------------------------------------------------------

  /** `send_sysex(port, c, *args)`: the data bytes of the SysEx message. */
  function Frame(c: Command, args: seq<int>): (m: seq<int>)
    ensures |m| == |args| + 2 && m[2..] == args
  {
    [SysexId, Code(c)] + args
  }

  /** Reads a frame back: the command and its arguments, when the id and the code are valid. */
  function Unframe(m: seq<int>): (r: Option<(Command, seq<int>)>)
    ensures r.Some? <==> |m| >= 2 && m[0] == SysexId && 0 <= m[1] <= 5
    ensures r.Some? ==> Frame(r.value.0, r.value.1) == m
  {
    if |m| >= 2 && m[0] == SysexId && CommandOf(m[1]).Some? then Some((CommandOf(m[1]).value, m[2..]))
    else None
  }

  /** Every frame carries the id, the command's code and the arguments unchanged. */
  lemma FrameRoundTrip(c: Command, args: seq<int>)
    ensures Unframe(Frame(c, args)) == Some((c, args))
  {
    assert Frame(c, args)[2..] == args;
  }

  /** The five messages of `apply_settings`, in order. */
  function ApplyFrames(f: Form): (fs: seq<seq<int>>)
    requires f.curve != []
    ensures |fs| == 5
    ensures forall i :: 0 <= i < 5 ==> |fs[i]| >= 3 && fs[i][0] == SysexId && fs[i][1] == i
  {
    [ Frame(SetMidiChannel, [1 + ChannelIndex(f.channelText)]),
      Frame(SetMidiMessage, [MessageIndex(f.message)]),
      Frame(SetControlNumber, [f.control]),
      Frame(SetInputGain, [f.gain]),
      Frame(SetCurve, Curve.Table(f.curve)) ]
  }

  /** The frames of a sequence that were sent before the port failed after `accepted` of them. */
  function Sent(frames: seq<seq<int>>, accepted: nat): (r: seq<seq<int>>)
    ensures |r| <= |frames| && r == frames[..|r|]
    ensures accepted >= |frames| ==> r == frames
  {
    if accepted >= |frames| then frames else frames[..accepted]
  }

  /** `save_settings`: apply (possibly cut short), then `save_to_eeprom` if the second port opens. */
  function SaveFrames(f: Form, accepted: nat, saveSent: bool): (fs: seq<seq<int>>)
    requires f.curve != []
    ensures |fs| <= 6
    ensures saveSent ==> |fs| >= 1 && fs[|fs| - 1] == [SysexId, 5]
    ensures (if saveSent then fs[..|fs| - 1] else fs) <= ApplyFrames(f)
  {
    var save := Frame(SaveToEeprom, []);
    assert save == [SysexId, 5];
    Sent(ApplyFrames(f), accepted) + (if saveSent then [save] else [])
  }

  /**
   * On a valid panel, apply sends channel (1-based), message index,
   * control number, gain in tenths and the 128-entry table, in that
   * order, and every data byte is 7-bit.
   */
  lemma ApplyFramesShape(f: Form)
    requires ValidForm(f)
    ensures var fs := ApplyFrames(f);
      && |fs| == 5
      && Unframe(fs[0]) == Some((SetMidiChannel, [1 + ChannelIndex(f.channelText)]))
      && Unframe(fs[1]) == Some((SetMidiMessage, [MessageIndex(f.message)]))
      && Unframe(fs[2]) == Some((SetControlNumber, [f.control]))
      && Unframe(fs[3]) == Some((SetInputGain, [f.gain]))
      && Unframe(fs[4]) == Some((SetCurve, Curve.Table(f.curve)))
      && |fs[4]| == 130
    ensures forall i, j :: 0 <= i < 5 && 0 <= j < |ApplyFrames(f)[i]| ==> 0 <= ApplyFrames(f)[i][j] < 128
  {
    ApplyFramesDecode(f);
    ApplyFramesSevenBit(f);
  }

  /** Each of the five frames reads back as its command and arguments. */
  lemma ApplyFramesDecode(f: Form)
    requires f.curve != []
    ensures var fs := ApplyFrames(f);
      && Unframe(fs[0]) == Some((SetMidiChannel, [1 + ChannelIndex(f.channelText)]))
      && Unframe(fs[1]) == Some((SetMidiMessage, [MessageIndex(f.message)]))
      && Unframe(fs[2]) == Some((SetControlNumber, [f.control]))
      && Unframe(fs[3]) == Some((SetInputGain, [f.gain]))
      && Unframe(fs[4]) == Some((SetCurve, Curve.Table(f.curve)))
  {
    FrameRoundTrip(SetMidiChannel, [1 + ChannelIndex(f.channelText)]);
    FrameRoundTrip(SetMidiMessage, [MessageIndex(f.message)]);
    FrameRoundTrip(SetControlNumber, [f.control]);
    FrameRoundTrip(SetInputGain, [f.gain]);
    FrameRoundTrip(SetCurve, Curve.Table(f.curve));
  }

  /** On a valid panel every byte of the five frames is 7-bit, and the curve frame holds 128 entries. */
  lemma ApplyFramesSevenBit(f: Form)
    requires ValidForm(f)
    ensures |ApplyFrames(f)[4]| == 130
    ensures forall i, j :: 0 <= i < 5 && 0 <= j < |ApplyFrames(f)[i]| ==> 0 <= ApplyFrames(f)[i][j] < 128
  {
    var fs := ApplyFrames(f);
    Curve.TableShape(f.curve);
    FrameSevenBit(SetMidiChannel, [1 + ChannelIndex(f.channelText)]);
    FrameSevenBit(SetMidiMessage, [MessageIndex(f.message)]);
    FrameSevenBit(SetControlNumber, [f.control]);
    FrameSevenBit(SetInputGain, [f.gain]);
    FrameSevenBit(SetCurve, Curve.Table(f.curve));
    forall i, j | 0 <= i < 5 && 0 <= j < |fs[i]| ensures 0 <= fs[i][j] < 128 {
      if i == 0 {
      } else if i == 1 {
      } else if i == 2 {
      } else if i == 3 {
      } else {
      }
    }
  }

  lemma FrameSevenBit(c: Command, args: seq<int>)
    requires forall j :: 0 <= j < |args| ==> 0 <= args[j] < 128
    ensures forall j :: 0 <= j < |Frame(c, args)| ==> 0 <= Frame(c, args)[j] < 128
  {
    forall j | 0 <= j < |Frame(c, args)| ensures 0 <= Frame(c, args)[j] < 128 {
      if j >= 2 {
        assert Frame(c, args)[j] == args[j - 2];
      }
    }
  }

  /** Saving ends with `save_to_eeprom`, which carries no payload, after whatever apply managed to send. */
  lemma SaveFramesEnd(f: Form, accepted: nat)
    requires f.curve != []
    ensures var fs := SaveFrames(f, accepted, true);
      && fs[|fs| - 1] == [SysexId, 5]
      && fs[..|fs| - 1] == Sent(ApplyFrames(f), accepted)
      && (accepted >= 5 ==> |fs| == 6)
  {
  }
}
