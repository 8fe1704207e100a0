/**
 * The configuration tool's main window (class `App` of
 * software/breath-controller.py) reduced to the state its handlers read and
 * write: the curve list, and the values shown by the MIDI channel, message,
 * control number and input gain widgets. Each handler is a method that
 * updates these fields as the Python code does, proved against the
 * functions of modules Curve, Protocol and Preset.
 *
 * Canvas events are given as their pixel coordinates; a MIDI port is given
 * as the number of messages it accepts before it raises; a preset file is
 * given as its list of lines.
 */
module Tool {

  import opened Text
  import opened Protocol
  import Curve
  import Preset

  /** The drawing threshold of the canvas handlers, in plot units. */
  const Threshold: int := 8

  class App {
    var curve: seq<Curve.Point>
    /** The text shown by the read-only MIDI channel combobox. */
    var channelText: string
    var message: MidiMessage
    /** `combo_control_number.current()`. */
    var control: int
    /** The input gain scale, in tenths. */
    var gain: int

    /** The panel the handlers see. */
    function Panel(): Form
      reads this
    {
      Form(channelText, message, control, gain, curve)
    }

    /** What every handler keeps: the settings are valid and the curve is canonical. */
    predicate Valid()
      reads this
    {
      SettingsInRange(channelText, control, gain) && Curve.Canonical(curve)
    }

    /** `App.__init__`: channel 1, control change, control number 2, gain 1.0, identity curve. */
    constructor ()
      ensures Valid()
      ensures Panel() == InitialForm()
    {
      curve := Curve.Identity;
      channelText := FormatNat(1);
      message := ControlChange;
      control := 2;
      gain := 10;
      new;
      Curve.IdentityCanonical();
      ChannelIndexOfLabel(1);
    }

    /** `fix_curve`, step by step: sort, clamp, drop repeated x, then add the missing endpoints. */
    method FixCurve()
      modifies this`curve
      ensures curve == Curve.Fixed(old(curve))
      ensures Curve.Canonical(curve)
    {
      var c := curve;
      Curve.FixedIsCanonical(c);
      if c == [] {
        curve := Curve.Identity;
        return;
      }
      c := Curve.Sort(c);
      c := Curve.ClampAll(c);
      c := Curve.Dedup(c);
      ghost var kept := c;
      if c[0].x != 0 {
        c := [Curve.Point(0, c[0].y)] + c;
      }
      assert c == Curve.WithLeftEndpoint(kept);
      ghost var left := c;
      if c[|c| - 1].x != Curve.MaxCoord {
        c := c + [Curve.Point(Curve.MaxCoord, c[|c| - 1].y)];
      }
      assert c == Curve.WithRightEndpoint(left);
      curve := c;
    }

    /** `curve_table`: for each pair of neighbours, one interpolated value per x, then the last y. */
    method CurveTable() returns (table: seq<int>)
      requires curve != []
      ensures table == Curve.Table(curve)
    {
      table := [];
      var k := 1;
      while k < |curve|
        invariant 1 <= k <= |curve|
        invariant table == Curve.Segments(curve, k)
      {
        var a := curve[k - 1];
        var b := curve[k];
        ghost var before := table;
        var x := a.x;
        while x < b.x
          invariant a.x <= x
          invariant x - a.x <= |Curve.Segment(a, b)|
          invariant table == before + Curve.Segment(a, b)[..x - a.x]
        {
          assert Curve.Segment(a, b)[..x + 1 - a.x] == Curve.Segment(a, b)[..x - a.x] + [Curve.Interp(a, b, x)];
          table := table + [Curve.Interp(a, b, x)];
          x := x + 1;
        }
        assert Curve.Segment(a, b)[..x - a.x] == Curve.Segment(a, b);
        k := k + 1;
      }
      table := table + [curve[|curve| - 1].y];
    }

    /**
     * `canvas_left_click`: the click point is added when its x differs from
     * that of the point nearest to it horizontally and it is more than 8
     * units away from that point.
     */
    method LeftClick(ex: int, ey: int)
      requires Curve.Canonical(curve)
      modifies this`curve
      ensures Curve.Canonical(curve)
      ensures var p := Curve.EventToPoint(ex, ey);
        var a := Curve.NearestByX(old(curve), p.x);
        curve == if p.x != a.x && Curve.Distance(p, a) > Threshold then Curve.Insert(p, old(curve)) else old(curve)
    {
      var p := Curve.EventToPoint(ex, ey);
      var a := Curve.NearestByX(curve, p.x);
      if p.x != a.x && Curve.Distance(p, a) > Threshold {
        Curve.LeftClickFixes(curve, p);
        curve := curve + [p];
        FixCurve();
      }
    }

    /**
     * `canvas_left_drag`: the point closest to the drag point is replaced by
     * it, unless the drag point lies on the vertical line of another point.
     */
    method LeftDrag(ex: int, ey: int)
      requires Curve.Canonical(curve)
      modifies this`curve
      ensures Curve.Canonical(curve)
      ensures var p := Curve.EventToPoint(ex, ey);
        var a := Curve.NearestByX(old(curve), p.x);
        var q := Curve.Closest(old(curve), p);
        curve == if a == q || p.x != a.x then Curve.Fixed(Curve.RemoveFirst(old(curve), q) + [p]) else old(curve)
      ensures var p := Curve.EventToPoint(ex, ey);
        var a := Curve.NearestByX(old(curve), p.x);
        var q := Curve.Closest(old(curve), p);
        (a == q || p.x != a.x) && (p.x == q.x || 0 < q.x < Curve.MaxCoord) ==>
          && curve == Curve.Insert(p, Curve.RemoveFirst(old(curve), q))
          && |curve| == |old(curve)|
    {
      var p := Curve.EventToPoint(ex, ey);
      var a := Curve.NearestByX(curve, p.x);
      var q := Curve.Closest(curve, p);
      if a == q || p.x != a.x {
        if p.x == q.x || 0 < q.x < Curve.MaxCoord {
          Curve.DragTarget(curve, p, q);
          Curve.DragFixes(curve, q, p);
        }
        curve := Curve.RemoveFirst(curve, q) + [p];
        FixCurve();
      }
    }

    /** `canvas_right_click`: the point closest to the click is removed when it is less than 8 units away. */
    method RightClick(ex: int, ey: int)
      requires Curve.Canonical(curve)
      modifies this`curve
      ensures Curve.Canonical(curve)
      ensures var p := Curve.EventToPoint(ex, ey);
        var q := Curve.Closest(old(curve), p);
        curve == if Curve.Distance(p, q) < Threshold then Curve.Fixed(Curve.RemoveFirst(old(curve), q)) else old(curve)
      ensures var p := Curve.EventToPoint(ex, ey);
        var q := Curve.Closest(old(curve), p);
        Curve.Distance(p, q) < Threshold && 0 < q.x < Curve.MaxCoord ==> curve == Curve.RemoveFirst(old(curve), q)
    {
      var p := Curve.EventToPoint(ex, ey);
      var q := Curve.Closest(curve, p);
      if Curve.Distance(p, q) < Threshold {
        if 0 < q.x < Curve.MaxCoord {
          Curve.RemoveFixes(curve, q);
        }
        curve := Curve.RemoveFirst(curve, q);
        FixCurve();
      }
    }

    /**
     * `canvas_middle_click`: back to the identity curve. The `fix_curve` that
     * `draw_curve` then runs leaves it as it is (`Curve.FixedIdentity`).
     */
    method MiddleClick()
      requires Curve.Canonical(curve)
      modifies this`curve
      ensures Curve.Canonical(curve)
      ensures curve == Curve.Identity
    {
      curve := Curve.Identity;
      Curve.IdentityCanonical();
    }

    /**
     * `apply_settings` on a port that accepts `accepted` messages and then
     * raises: the messages that reach the device.
     */
    method ApplySettings(accepted: nat) returns (sent: seq<seq<int>>)
      requires Valid()
      ensures sent == Sent(ApplyFrames(Panel()), accepted)
    {
      var frames := ApplyFrames(Panel());
      sent := [];
      if accepted >= 1 {
        sent := sent + [Frame(SetMidiChannel, [1 + ChannelIndex(channelText)])];
      }
      if accepted >= 2 {
        sent := sent + [Frame(SetMidiMessage, [MessageIndex(message)])];
      }
      if accepted >= 3 {
        sent := sent + [Frame(SetControlNumber, [control])];
      }
      if accepted >= 4 {
        sent := sent + [Frame(SetInputGain, [gain])];
      }
      if accepted >= 5 {
        var table := CurveTable();
        sent := sent + [Frame(SetCurve, table)];
      }
      assert sent == frames[..if accepted >= 5 then 5 else accepted];
    }

    /**
     * `save_settings`: apply, then `save_to_eeprom` on a second port, sent
     * whenever that port opens even if apply failed.
     */
    method SaveSettings(accepted: nat, saveOpens: bool) returns (sent: seq<seq<int>>)
      requires Valid()
      ensures sent == SaveFrames(Panel(), accepted, saveOpens)
    {
      sent := ApplySettings(accepted);
      if saveOpens {
        sent := sent + [Frame(SaveToEeprom, [])];
      }
    }

    /** `save_preset`: the lines written to the chosen file. */
    method SavePreset() returns (lines: seq<string>)
      requires Valid()
      ensures lines == Preset.SaveLines(Panel())
    {
      var channelLine := Preset.Setting("midi_channel", FormatNat(ChannelIndex(channelText) + 1));
      var messageLine := Preset.Setting("midi_message", Key(message));
      lines := [channelLine, messageLine];
      if message == ControlChange {
        lines := lines + [Preset.Setting("control_number", FormatNat(control))];
      }
      var gainLine := Preset.Setting("input_gain", Preset.FormatGain(gain));
      var curveLine := Preset.Setting("curve", JoinSpace(Preset.PairTokens(curve)));
      lines := lines + [gainLine, curveLine];
    }

    /**
     * `load_preset` over the lines of the chosen file: each recognised
     * setting updates its widget; an `int()` or `float()` error ends the
     * load and is reported by `failed`.
     */
    method LoadPreset(lines: seq<string>) returns (failed: bool)
      requires Valid()
      modifies this
      ensures Valid()
      ensures Preset.Load(old(Panel()), lines) == Preset.Loaded(Panel(), failed)
    {
      failed := false;
      var i := 0;
      while i < |lines|
        invariant 0 <= i <= |lines|
        invariant Valid()
        invariant Preset.Load(old(Panel()), lines) == Preset.Load(Panel(), lines[i..])
      {
        ghost var before := Panel();
        Preset.LoadLineValid(before, lines[i]);
        var ok := LoadLine(lines[i]);
        assert lines[i..] == [lines[i]] + lines[i + 1..];
        if !ok {
          failed := true;
          return;
        }
        Preset.LoadCons(before, Panel(), lines[i], lines[i + 1..]);
        i := i + 1;
      }
    }

    /** The body of the loop of `load_preset` for one line; false when `int()` or `float()` raises. */
    method LoadLine(line: string) returns (ok: bool)
      requires Curve.Canonical(curve)
      modifies this
      ensures Curve.Canonical(curve)
      ensures ok ==> Preset.LoadLine(old(Panel()), line) == Some(Panel())
      ensures !ok ==> Preset.LoadLine(old(Panel()), line).None? && Panel() == old(Panel())
    {
      ok := true;
      var kv := Split(line);
      if |kv| == 2 {
        ok := LoadSetting(kv[0], kv[1]);
      } else if |kv| > 2 && kv[0] == "curve" {
        Preset.LoadCurveBranch(old(Panel()), line);
        LoadCurve(kv[1..]);
      }
    }

    /** A `curve` line: the pairs of the joined tokens replace the curve, which is then fixed. */
    method LoadCurve(tokens: seq<string>)
      requires Curve.Canonical(curve)
      modifies this`curve
      ensures Curve.Canonical(curve)
      ensures curve == match Preset.CurveField(Concat(tokens))
        case Some(ps) => Curve.Fixed(ps)
        case None => old(curve)
    {
      var ps := Preset.CurveField(Concat(tokens));
      if ps.Some? {
        curve := ps.value;
        FixCurve();
      }
    }

    /** One `key value` line: the widget of a known key takes the value when it parses and is in range. */
    method LoadSetting(k: string, v: string) returns (ok: bool)
      modifies this`channelText, this`message, this`control, this`gain
      ensures ok ==> Preset.LoadSetting(old(Panel()), k, v) == Some(Panel())
      ensures !ok ==> Preset.LoadSetting(old(Panel()), k, v).None? && Panel() == old(Panel())
    {
      ok := true;
      if k == "midi_channel" {
        var n := ParseInt(v);
        if n.None? {
          ok := false;
        } else if 1 <= n.value <= 16 {
          channelText := FormatNat(n.value);
        }
      } else if k == "midi_message" {
        var m := MessageOfKey(v);
        if m.Some? {
          message := m.value;
        }
      } else if k == "control_number" {
        var n := ParseInt(v);
        if n.None? {
          ok := false;
        } else if 0 <= n.value <= 127 {
          control := n.value;
        }
      } else if k == "input_gain" {
        var t := Preset.ParseGain(v);
        if t.None? {
          ok := false;
        } else if 10 <= t.value <= 40 {
          gain := t.value;
        }
      }
    }
  }
}
