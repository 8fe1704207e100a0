/**
 * The preset file codec of `load_preset` and `save_preset`
 * (software/breath-controller.py): one `key value` setting per line, the
 * curve as space-separated `(x,y)` pairs. Files are modelled as lists of
 * lines, each with its line terminator.
 */
module Preset {

  import opened Text
  import opened Protocol
  import Curve

  // ---------------------------------------------------------------------
  // Input gain
  // ---------------------------------------------------------------------

  /**
   * `float(v)` in tenths, for an optional sign, decimal digits and at most
   * one decimal place. `None` stands for the `ValueError`.
   */
  function ParseGain(s: string): (r: Option<int>)
    ensures AllDigits(s) && s != [] ==> r == Some(10 * DigitsValue(s))
  {
    var n := |s|;
    if n >= 3 && s[n - 2] == '.' && IsDigit(s[n - 1]) then
      match ParseInt(s[..n - 2])
      case None => None
      case Some(w) =>
        var magnitude := 10 * (if w < 0 then -w else w) + DigitValue(s[n - 1]);
        Some(if s[0] == '-' then -magnitude else magnitude)
    else
      match ParseInt(s)
      case None => None
      case Some(w) => Some(10 * w)
  }

  /** `'{:1.1f}'.format(gain)` for a gain of `t` tenths. */
  function FormatGain(t: nat): (s: string)
    ensures |s| >= 3 && s[|s| - 2] == '.'
  {
    FormatNat(t / 10) + "." + [DigitChar(t % 10)]
  }

  /** The gain written to a preset reads back as the same number of tenths. */
  lemma ParseFormatGain(t: nat)
    ensures ParseGain(FormatGain(t)) == Some(t)
  {
    var s := FormatGain(t);
    var n := |s|;
    assert s[..n - 2] == FormatNat(t / 10);
    ParseFormat(t / 10);
    assert s[n - 1] == DigitChar(t % 10);
    assert s[0] == FormatNat(t / 10)[0];
  }

  // ---------------------------------------------------------------------
  // Curve pairs
  // ---------------------------------------------------------------------

  /** The length of the longest prefix of ASCII digits. */
  function DigitRun(s: string): (n: nat)
    ensures n <= |s| && AllDigits(s[..n])
    ensures n < |s| ==> !IsDigit(s[n])
  {
    if s == [] || !IsDigit(s[0]) then 0
    else
      var n := 1 + DigitRun(s[1..]);
      assert s[..n] == [s[0]] + s[1..][..n - 1];
      n
  }

  /** A number followed by the character `sep`: its value and the characters both take. */
  function NumberThen(s: string, sep: char): (r: Option<(int, int)>)
    ensures r.Some? ==> 2 <= r.value.1 <= |s| && r.value.0 >= 0
  {
    var a := DigitRun(s);
    if a == 0 || a >= |s| || s[a] != sep then None
    else Some((DigitsValue(s[..a]), a + 1))
  }

  /** One `(x,y)` pair at the start of `s` and the number of characters it takes. */
  function ParsePair(s: string): (r: Option<(Curve.Point, int)>)
    ensures r.Some? ==> 0 < r.value.1 <= |s|
    ensures r.Some? ==> r.value.0.x >= 0 && r.value.0.y >= 0
  {
    if s == [] || s[0] != '(' then None
    else
      var rx := NumberThen(s[1..], ',');
      if rx.None? then None
      else
        var ry := NumberThen(s[1 + rx.value.1..], ')');
        if ry.None? then None
        else Some((Curve.Point(rx.value.0, ry.value.0), 1 + rx.value.1 + ry.value.1))
  }

  /** The whole of `s` as a run of `(x,y)` pairs, or `None` when anything else is in it. */
  function ParsePairs(s: string): (r: Option<seq<Curve.Point>>)
    ensures r.Some? ==> forall q :: q in r.value ==> q.x >= 0 && q.y >= 0
    decreases |s|
  {
    if s == [] then Some([])
    else match ParsePair(s)
      case None => None
      case Some((p, n)) =>
        match ParsePairs(s[n..])
        case None => None
        case Some(ps) => Some([p] + ps)
  }

  /**
   * The curve value of a preset line: `re.fullmatch(r'(\(\d+,\d+\)){2,}', v)`
   * and then the pairs `re.finditer` extracts, in order.
   */
  function CurveField(v: string): (r: Option<seq<Curve.Point>>)
    ensures r.Some? ==> |r.value| >= 2
  {
    match ParsePairs(v)
    case Some(ps) => if |ps| >= 2 then Some(ps) else None
    case None => None
  }

  predicate NonNegative(c: seq<Curve.Point>) {
    forall q :: q in c ==> q.x >= 0 && q.y >= 0
  }

  /** `'({},{})'.format(x, y)`. */
  function PairToken(p: Curve.Point): (t: string)
    requires p.x >= 0 && p.y >= 0
    ensures IsToken(t)
  {
    "(" + FormatNat(p.x) + "," + FormatNat(p.y) + ")"
  }

  function PairTokens(c: seq<Curve.Point>): (ts: seq<string>)
    requires NonNegative(c)
    ensures |ts| == |c|
    ensures forall i :: 0 <= i < |c| ==> ts[i] == PairToken(c[i])
  {
    seq(|c|, i requires 0 <= i < |c| => PairToken(c[i]))
  }

  lemma DigitRunOf(d: string, rest: string)
    requires AllDigits(d)
    requires rest == [] || !IsDigit(rest[0])
    ensures DigitRun(d + rest) == |d|
    decreases |d|
  {
    if d == [] {
      assert d + rest == rest;
    } else {
      assert (d + rest)[0] == d[0] && IsDigit(d[0]);
      assert (d + rest)[1..] == d[1..] + rest;
      DigitRunOf(d[1..], rest);
    }
  }

  lemma NumberThenOf(d: string, sep: char, rest: string, x: int)
    requires d != [] && AllDigits(d) && !IsDigit(sep)
    requires x == DigitsValue(d)
    ensures NumberThen(d + ([sep] + rest), sep) == Some((x, |d| + 1))
  {
    var s := d + ([sep] + rest);
    DigitRunOf(d, [sep] + rest);
    assert s[..|d|] == d;
    assert s[|d|] == sep;
    NumberThenAt(s, sep, |d|, x);
  }

  /** A number is read when its digit run ends at the separator. */
  lemma NumberThenAt(s: string, sep: char, a: nat, x: int)
    requires 0 < a < |s| && DigitRun(s) == a && s[a] == sep
    requires AllDigits(s[..a]) && x == DigitsValue(s[..a])
    ensures NumberThen(s, sep) == Some((x, a + 1))
  {
  }

  /** A pair is read when its two numbers are read with their separators. */
  lemma ParsePairStep(s: string, x: int, y: int, n: int, m: int, len: int)
    requires s != [] && s[0] == '('
    requires NumberThen(s[1..], ',') == Some((x, n))
    requires NumberThen(s[1 + n..], ')') == Some((y, m))
    requires len == 1 + n + m
    ensures ParsePair(s) == Some((Curve.Point(x, y), len))
  {
  }

  /** A pair of digit strings in parentheses, followed by anything, is read as that pair. */
  lemma ParsePairOf(dx: string, dy: string, rest: string)
    requires dx != [] && AllDigits(dx) && dy != [] && AllDigits(dy)
    ensures ParsePair("(" + (dx + ("," + (dy + (")" + rest))))) ==
      Some((Curve.Point(DigitsValue(dx), DigitsValue(dy)), |dx| + |dy| + 3))
  {
    PairNumbers(dx, dy, rest, DigitsValue(dx), DigitsValue(dy));
    ParsePairIs("(" + (dx + ("," + (dy + (")" + rest)))), dx, dy, rest, DigitsValue(dx), DigitsValue(dy));
  }

  /** The two numbers of a pair, each read up to its separator. */
  lemma PairNumbers(dx: string, dy: string, rest: string, x: int, y: int)
    requires dx != [] && AllDigits(dx) && dy != [] && AllDigits(dy)
    requires x == DigitsValue(dx) && y == DigitsValue(dy)
    ensures NumberThen(dx + ([','] + (dy + (")" + rest))), ',') == Some((x, |dx| + 1))
    ensures NumberThen(dy + ([')'] + rest), ')') == Some((y, |dy| + 1))
  {
    NumberThenOf(dx, ',', dy + (")" + rest), x);
    NumberThenOf(dy, ')', rest, y);
  }

  /** The parenthesised text of a pair is read as the pair when its two numbers are. */
  lemma ParsePairIs(s: string, dx: string, dy: string, rest: string, x: int, y: int)
    requires s == "(" + (dx + ("," + (dy + (")" + rest))))
    requires NumberThen(dx + ([','] + (dy + (")" + rest))), ',') == Some((x, |dx| + 1))
    requires NumberThen(dy + ([')'] + rest), ')') == Some((y, |dy| + 1))
    ensures ParsePair(s) == Some((Curve.Point(x, y), |dx| + |dy| + 3))
  {
    PairTextSlices(s, dx, dy, rest);
    ParsePairStep(s, x, y, |dx| + 1, |dy| + 1, |dx| + |dy| + 3);
  }

  lemma PairTextSlices(s: string, dx: string, dy: string, rest: string)
    requires s == "(" + (dx + ("," + (dy + (")" + rest))))
    ensures s != [] && s[0] == '('
    ensures s[1..] == dx + ([','] + (dy + (")" + rest)))
    ensures s[1 + (|dx| + 1)..] == dy + ([')'] + rest)
  {
    assert s[1..] == dx + ([','] + (dy + (")" + rest)));
  }

  /** A written pair is read back, and nothing after it is consumed. */
  lemma ParsePairToken(p: Curve.Point, rest: string)
    requires p.x >= 0 && p.y >= 0
    ensures ParsePair(PairToken(p) + rest) == Some((p, |PairToken(p)|))
  {
    var dx := FormatNat(p.x);
    var dy := FormatNat(p.y);
    DigitsValueFormat(p.x);
    DigitsValueFormat(p.y);
    PairNumbers(dx, dy, rest, p.x, p.y);
    PairTokenSpelling(p, rest);
    ParsePairIs(PairToken(p) + rest, dx, dy, rest, p.x, p.y);
  }

  lemma PairTokenSpelling(p: Curve.Point, rest: string)
    requires p.x >= 0 && p.y >= 0
    ensures PairToken(p) + rest == "(" + (FormatNat(p.x) + ("," + (FormatNat(p.y) + (")" + rest))))
    ensures |PairToken(p)| == |FormatNat(p.x)| + |FormatNat(p.y)| + 3
  {
  }

  /** The joined pairs of a curve parse back to the same list of points. */
  lemma {:induction false} ParsePairsTokens(c: seq<Curve.Point>)
    requires NonNegative(c)
    ensures ParsePairs(Concat(PairTokens(c))) == Some(c)
  {
    if c != [] {
      var ts := PairTokens(c);
      assert PairTokens(c[1..]) == ts[1..];
      ParsePairToken(c[0], Concat(ts[1..]));
      assert Concat(ts) == PairToken(c[0]) + Concat(ts[1..]);
      var s := Concat(ts);
      assert s[|PairToken(c[0])|..] == Concat(ts[1..]);
      ParsePairsTokens(c[1..]);
      assert [c[0]] + c[1..] == c;
    }
  }

  // ---------------------------------------------------------------------
  // Lines
  // ---------------------------------------------------------------------

  /** The panel state a preset can be written from: nothing negative. */
  predicate Savable(f: Form) {
    0 <= f.control && 0 <= f.gain && NonNegative(f.curve)
  }

  lemma ValidSavable(f: Form)
    requires ValidForm(f)
    ensures Savable(f)
  {
  }

  /** One line of a preset file: `'{} {}\n'`. */
  function Setting(k: string, v: string): (line: string)
    ensures |line| == |k| + |v| + 2
  {
    k + " " + v + "\n"
  }

  /** `save_preset`: the lines written. */
  function SaveLines(f: Form): (ls: seq<string>)
    requires Savable(f)
    ensures |ls| == if f.message == ControlChange then 5 else 4
  {
    [Setting("midi_channel", FormatNat(ChannelIndex(f.channelText) + 1)),
     Setting("midi_message", Key(f.message))]
    + (if f.message == ControlChange then [Setting("control_number", FormatNat(f.control))] else [])
    + [Setting("input_gain", FormatGain(f.gain)),
       Setting("curve", JoinSpace(PairTokens(f.curve)))]
  }

  /** The lines of `save_preset`, one at a time. */
  lemma SaveLinesSplit(f: Form)
    requires Savable(f)
    ensures SaveLines(f) ==
      [Setting("midi_channel", FormatNat(ChannelIndex(f.channelText) + 1))]
      + ([Setting("midi_message", Key(f.message))]
         + ((if f.message == ControlChange then [Setting("control_number", FormatNat(f.control))] else [])
            + ([Setting("input_gain", FormatGain(f.gain))] + [Setting("curve", JoinSpace(PairTokens(f.curve)))])))
  {
  }

  /**
   * A `key value` line of `load_preset`. `None` stands for the exception
   * `int()` or `float()` raises, which ends the whole load. A channel in
   * range selects the label of the number it parses to; the code as written
   * shows the token itself (`LoadSettingAsWritten`).
   */
  function LoadSetting(f: Form, k: string, v: string): (r: Option<Form>)
    ensures k == "midi_channel" ==> (r.None? <==> ParseInt(v).None?)
    ensures k == "midi_channel" && r.Some? && 1 <= ParseInt(v).value <= 16 ==>
      ChannelIndex(r.value.channelText) == ParseInt(v).value - 1
    ensures k == "midi_channel" && r.Some? && !(1 <= ParseInt(v).value <= 16) ==> r.value == f
  {
    if k == "midi_channel" then
      match ParseInt(v)
      case None => None
      case Some(n) =>
        if 1 <= n <= 16 then ChannelIndexOfLabel(n); Some(f.(channelText := FormatNat(n))) else Some(f)
    else if k == "midi_message" then
      Some(match MessageOfKey(v) case Some(m) => f.(message := m) case None => f)
    else if k == "control_number" then
      match ParseInt(v)
      case None => None
      case Some(n) => Some(if 0 <= n <= 127 then f.(control := n) else f)
    else if k == "input_gain" then
      match ParseGain(v)
      case None => None
      case Some(t) => Some(if 10 <= t <= 40 then f.(gain := t) else f)
    else Some(f)
  }

  /** One line of `load_preset`: a setting, a curve, or a line it ignores. */
  function LoadLine(f: Form, line: string): (r: Option<Form>)
    ensures r.None? ==> |Split(line)| == 2
    ensures r.Some? && |Split(line)| != 2 ==> r.value == f.(curve := r.value.curve)
  {
    var kv := Split(line);
    if |kv| == 2 then LoadSetting(f, kv[0], kv[1])
    else if |kv| > 2 && kv[0] == "curve" then
      match CurveField(Concat(kv[1..]))
      case Some(ps) => Some(f.(curve := Curve.Fixed(ps)))
      case None => Some(f)
    else Some(f)
  }

  /** The outcome of a load: the panel, and whether an error ended it early. */
  datatype Loaded = Loaded(form: Form, failed: bool)

  /** `load_preset` over the lines of a file. */
  function Load(f: Form, lines: seq<string>): (r: Loaded)
    ensures r.failed ==> lines != []
    decreases |lines|
  {
    if lines == [] then Loaded(f, false)
    else match LoadLine(f, lines[0])
      case None => Loaded(f, true)
      case Some(g) => Load(g, lines[1..])
  }

  // ---------------------------------------------------------------------
  // Properties of the codec
  // ---------------------------------------------------------------------

  /** Loading any line keeps the panel valid. */
  lemma LoadLineValid(f: Form, line: string)
    requires ValidForm(f)
    ensures LoadLine(f, line).Some? ==> ValidForm(LoadLine(f, line).value)
  {
    var kv := Split(line);
    if |kv| == 2 && kv[0] == "midi_channel" {
      var n := ParseInt(kv[1]);
      if n.Some? && 1 <= n.value <= 16 {
        ChannelIndexOfLabel(n.value);
      }
    } else if |kv| > 2 && kv[0] == "curve" {
      var ps := CurveField(Concat(kv[1..]));
      if ps.Some? {
        Curve.FixedIsCanonical(ps.value);
      }
    }
  }

  /** Loading a file keeps the panel valid, even when an error ends it early. */
  lemma {:induction false} LoadValid(f: Form, lines: seq<string>)
    requires ValidForm(f)
    ensures ValidForm(Load(f, lines).form)
    decreases |lines|
  {
    if lines != [] {
      LoadLineValid(f, lines[0]);
      var g := LoadLine(f, lines[0]);
      if g.Some? {
        LoadValid(g.value, lines[1..]);
      }
    }
  }

  /** Only a `key value` line can raise, so a load that fails stopped at one. */
  lemma {:induction false} LoadFailsOnSetting(f: Form, lines: seq<string>)
    ensures Load(f, lines).failed ==> exists i :: 0 <= i < |lines| && |Split(lines[i])| == 2
    decreases |lines|
  {
    if lines != [] {
      var g := LoadLine(f, lines[0]);
      if g.Some? {
        LoadFailsOnSetting(g.value, lines[1..]);
        if Load(f, lines).failed {
          var i :| 0 <= i < |lines[1..]| && |Split(lines[1..][i])| == 2;
          assert lines[1..][i] == lines[i + 1];
        }
      }
    }
  }

  /** `midi_channel v` is taken only for 1..16, and then selects channel v. */
  lemma LoadChannel(f: Form, line: string, n: int)
    requires var kv := Split(line); |kv| == 2 && kv[0] == "midi_channel" && ParseInt(kv[1]) == Some(n)
    ensures LoadLine(f, line).Some?
    ensures 1 <= n <= 16 ==> ChannelIndex(LoadLine(f, line).value.channelText) == n - 1
    ensures !(1 <= n <= 16) ==> LoadLine(f, line) == Some(f)
  {
    if 1 <= n <= 16 {
      ChannelIndexOfLabel(n);
    }
  }

  /** `control_number v` is taken only for 0..127. */
  lemma LoadControl(f: Form, line: string, n: int)
    requires var kv := Split(line); |kv| == 2 && kv[0] == "control_number" && ParseInt(kv[1]) == Some(n)
    ensures LoadLine(f, line) == Some(if 0 <= n <= 127 then f.(control := n) else f)
  {
  }

  /** `input_gain v` is taken only for 1.0..4.0, that is 10..40 tenths; any other gain is skipped. */
  lemma LoadGain(f: Form, line: string, t: int)
    requires var kv := Split(line); |kv| == 2 && kv[0] == "input_gain" && ParseGain(kv[1]) == Some(t)
    ensures LoadLine(f, line) == Some(if 10 <= t <= 40 then f.(gain := t) else f)
  {
  }

  /**
   * A `key value` line as `load_preset` is written: the channel combobox is
   * set to the token itself, not to the label of the number it parses to.
   * Every other key is handled as in `LoadSetting`.
   */
  function LoadSettingAsWritten(f: Form, k: string, v: string): (r: Option<Form>)
    ensures k != "midi_channel" ==> r == LoadSetting(f, k, v)
    ensures k == "midi_channel" && ParseInt(v).Some? && 1 <= ParseInt(v).value <= 16 ==> r == Some(f.(channelText := v))
  {
    if k == "midi_channel" then
      match ParseInt(v)
      case None => None
      case Some(n) => Some(if 1 <= n <= 16 then f.(channelText := v) else f)
    else LoadSetting(f, k, v)
  }

  /**
   * As written, `midi_channel 05` passes the range check but leaves the
   * combobox showing a text that is none of its values: `current()` is then
   * -1, so apply sends channel 0 and save writes `midi_channel 0`.
   */
  lemma LoadChannelAsWrittenLosesChannel(f: Form)
    requires ValidForm(f)
    ensures ParseInt("05") == Some(5)
    ensures var g := LoadSettingAsWritten(f, "midi_channel", "05").value;
      && ChannelIndex(g.channelText) == -1
      && !ValidForm(g)
      && ApplyFrames(g)[0] == Frame(SetMidiChannel, [0])
      && SaveLines(g)[0] == Setting("midi_channel", "0")
  {
    var v := "05";
    assert AllDigits(v);
    assert DigitsValue(v) == 5;
    var g := f.(channelText := v);
    assert LoadSettingAsWritten(f, "midi_channel", v) == Some(g);
    ChannelIndexNotLabel(v);
    assert FormatNat(0) == "0";
  }

  /** The corrected `LoadSetting` selects channel 5 for `midi_channel 05`. */
  lemma LoadChannelLeadingZero(f: Form)
    requires ValidForm(f)
    ensures var h := LoadSetting(f, "midi_channel", "05").value;
      ChannelIndex(h.channelText) == 4 && ValidForm(h)
  {
    var v := "05";
    assert AllDigits(v);
    assert DigitsValue(v) == 5;
    ChannelIndexOfLabel(5);
  }

  /** An unknown `midi_message` key leaves the panel as it was. */
  lemma LoadUnknownMessage(f: Form, line: string)
    requires var kv := Split(line); |kv| == 2 && kv[0] == "midi_message"
    requires forall m :: Key(m) != Split(line)[1]
    ensures LoadLine(f, line) == Some(f)
  {
  }

  /** A curve line whose joined value is not a run of at least two pairs leaves the curve as it was. */
  lemma LoadCurveMismatch(f: Form, line: string)
    requires var kv := Split(line); |kv| > 2 && kv[0] == "curve" && CurveField(Concat(kv[1..])).None?
    ensures LoadLine(f, line) == Some(f)
  {
  }

  /**
   * A curve line with a single token after the key, such as
   * `curve (0,0)(127,127)` with no space between the pairs, is ignored.
   */
  lemma LoadCurveOneToken(f: Form, t: string)
    requires IsToken(t)
    ensures LoadLine(f, Setting("curve", t)) == Some(f)
  {
    SplitSetting("curve", t);
  }

  /** A written setting line splits back into its key and its value. */
  lemma SplitSetting(k: string, v: string)
    requires IsToken(k) && IsToken(v)
    ensures Split(Setting(k, v)) == [k, v]
  {
    SplitTrailingNewline(k + " " + v);
    SplitJoin([k, v]);
    assert JoinSpace([k, v]) == k + " " + v;
  }

  lemma JoinSpaceCons(t: string, ts: seq<string>)
    requires ts != []
    ensures JoinSpace([t] + ts) == t + " " + JoinSpace(ts)
  {
    assert ([t] + ts)[1..] == ts;
  }

  lemma CurveKeyIsToken()
    ensures IsToken("curve")
  {
    var k := "curve";
    forall i | 0 <= i < |k| ensures !IsSpace(k[i]) {
      assert 'c' <= k[i] <= 'v';
    }
  }

  lemma SplitCurveLine(ts: seq<string>)
    requires ts != [] && forall i :: 0 <= i < |ts| ==> IsToken(ts[i])
    ensures Split(Setting("curve", JoinSpace(ts))) == ["curve"] + ts
  {
    var all := ["curve"] + ts;
    JoinSpaceCons("curve", ts);
    assert Setting("curve", JoinSpace(ts)) == JoinSpace(all) + "\n";
    SplitTrailingNewline(JoinSpace(all));
    CurveKeyIsToken();
    forall i | 0 <= i < |all| ensures IsToken(all[i]) {
      if i > 0 {
        assert all[i] == ts[i - 1];
      }
    }
    SplitJoin(all);
  }

  /** The message keys are tokens. */
  lemma KeyIsToken(m: MidiMessage)
    ensures IsToken(Key(m))
  {
    var k := Key(m);
    forall i | 0 <= i < |k| ensures !IsSpace(k[i]) {
      assert '_' <= k[i] <= 'w';
    }
  }

  lemma LoadCons(f: Form, g: Form, l: string, ls: seq<string>)
    requires LoadLine(f, l) == Some(g)
    ensures Load(f, [l] + ls) == Load(g, ls)
  {
    assert ([l] + ls)[1..] == ls;
  }

  lemma SettingKeyIsToken(k: string)
    requires k in {"midi_channel", "midi_message", "control_number", "input_gain"}
    ensures IsToken(k)
  {
    forall i | 0 <= i < |k| ensures !IsSpace(k[i]) {
      assert '_' <= k[i] <= 'u';
    }
  }

  /** A written `midi_channel` line selects the written channel. */
  lemma LoadChannelLine(f: Form, n: int)
    requires 1 <= n <= 16
    ensures LoadLine(f, Setting("midi_channel", FormatNat(n))) == Some(f.(channelText := FormatNat(n)))
  {
    SettingKeyIsToken("midi_channel");
    SplitSetting("midi_channel", FormatNat(n));
    ParseFormat(n);
  }

  /** A written `midi_message` line selects the written message kind. */
  lemma LoadMessageLine(f: Form, m: MidiMessage)
    ensures LoadLine(f, Setting("midi_message", Key(m))) == Some(f.(message := m))
  {
    SettingKeyIsToken("midi_message");
    KeyIsToken(m);
    SplitSetting("midi_message", Key(m));
    KeyRoundTrip(m);
  }

  /** A written `control_number` line selects the written control number. */
  lemma LoadControlLine(f: Form, n: int)
    requires 0 <= n <= 127
    ensures LoadLine(f, Setting("control_number", FormatNat(n))) == Some(f.(control := n))
  {
    SettingKeyIsToken("control_number");
    SplitSetting("control_number", FormatNat(n));
    ParseFormat(n);
  }

  /** A written `input_gain` line sets the written gain. */
  lemma LoadGainLine(f: Form, t: int)
    requires 10 <= t <= 40
    ensures LoadLine(f, Setting("input_gain", FormatGain(t))) == Some(f.(gain := t))
  {
    var gt := FormatGain(t);
    assert IsToken(gt) by {
      assert gt == FormatNat(t / 10) + "." + [DigitChar(t % 10)];
      forall i | 0 <= i < |gt| ensures !IsSpace(gt[i]) {
        if i < |gt| - 2 {
          assert gt[i] == FormatNat(t / 10)[i];
        }
      }
    }
    SettingKeyIsToken("input_gain");
    SplitSetting("input_gain", gt);
    ParseFormatGain(t);
  }

  /** A `curve` line with at least two tokens after the key is read through `CurveField`. */
  lemma LoadCurveBranch(f: Form, line: string)
    requires |Split(line)| > 2 && Split(line)[0] == "curve"
    ensures LoadLine(f, line) ==
      match CurveField(Concat(Split(line)[1..]))
      case Some(ps) => Some(f.(curve := Curve.Fixed(ps)))
      case None => Some(f)
  {
  }

  /** A written curve line of a canonical curve sets exactly that curve. */
  lemma LoadCurveLine(f: Form, c: seq<Curve.Point>)
    requires Curve.Canonical(c)
    ensures LoadLine(f, Setting("curve", JoinSpace(PairTokens(c)))) == Some(f.(curve := c))
  {
    var ts := PairTokens(c);
    var line := Setting("curve", JoinSpace(ts));
    SplitCurveLine(ts);
    assert Split(line)[1..] == ts;
    ParsePairsTokens(c);
    assert CurveField(Concat(ts)) == Some(c);
    Curve.FixedCanonical(c);
    LoadCurveBranch(f, line);
  }

  lemma LoadChannelThen(f: Form, n: int, ls: seq<string>)
    requires 1 <= n <= 16
    ensures Load(f, [Setting("midi_channel", FormatNat(n))] + ls) == Load(f.(channelText := FormatNat(n)), ls)
  {
    LoadChannelLine(f, n);
    LoadCons(f, f.(channelText := FormatNat(n)), Setting("midi_channel", FormatNat(n)), ls);
  }

  lemma LoadMessageThen(f: Form, m: MidiMessage, ls: seq<string>)
    ensures Load(f, [Setting("midi_message", Key(m))] + ls) == Load(f.(message := m), ls)
  {
    LoadMessageLine(f, m);
    LoadCons(f, f.(message := m), Setting("midi_message", Key(m)), ls);
  }

  lemma LoadControlThen(f: Form, n: int, ls: seq<string>)
    requires 0 <= n <= 127
    ensures Load(f, [Setting("control_number", FormatNat(n))] + ls) == Load(f.(control := n), ls)
  {
    LoadControlLine(f, n);
    LoadCons(f, f.(control := n), Setting("control_number", FormatNat(n)), ls);
  }

  lemma LoadGainThen(f: Form, t: int, ls: seq<string>)
    requires 10 <= t <= 40
    ensures Load(f, [Setting("input_gain", FormatGain(t))] + ls) == Load(f.(gain := t), ls)
  {
    LoadGainLine(f, t);
    LoadCons(f, f.(gain := t), Setting("input_gain", FormatGain(t)), ls);
  }

  lemma LoadCurveLast(f: Form, c: seq<Curve.Point>)
    requires Curve.Canonical(c)
    ensures Load(f, [Setting("curve", JoinSpace(PairTokens(c)))]) == Loaded(f.(curve := c), false)
  {
    LoadCurveLine(f, c);
    LoadCons(f, f.(curve := c), Setting("curve", JoinSpace(PairTokens(c))), []);
  }

  /**
   * Writing a valid panel and loading the file into any panel gives the
   * written panel back, except that the control number is kept when the
   * message kind is not control change (it is not written then).
   */
  lemma SaveLoadRoundTrip(f0: Form, f: Form)
    requires ValidForm(f)
    ensures Load(f0, SaveLines(f)) ==
      Loaded(if f.message == ControlChange then f else f.(control := f0.control), false)
  {
    var ch := ChannelIndex(f.channelText) + 1;
    var g1 := f0.(channelText := FormatNat(ch));
    var rest := [Setting("midi_message", Key(f.message))]
      + ((if f.message == ControlChange then [Setting("control_number", FormatNat(f.control))] else [])
         + ([Setting("input_gain", FormatGain(f.gain))] + [Setting("curve", JoinSpace(PairTokens(f.curve)))]));
    LoadSavedAfterChannel(g1, f);
    LoadChannelThen(f0, ch, rest);
    SaveLinesSplit(f);
    assert FormatNat(ch) == f.channelText;
  }

  /** The saved lines after the channel line load the message kind, the control number (control change only), the gain and the curve. */
  lemma LoadSavedAfterChannel(g1: Form, f: Form)
    requires ValidForm(f)
    ensures Load(g1, [Setting("midi_message", Key(f.message))]
        + ((if f.message == ControlChange then [Setting("control_number", FormatNat(f.control))] else [])
           + ([Setting("input_gain", FormatGain(f.gain))] + [Setting("curve", JoinSpace(PairTokens(f.curve)))])))
      == Loaded(g1.(message := f.message, control := if f.message == ControlChange then f.control else g1.control,
                    gain := f.gain, curve := f.curve), false)
  {
    var l2 := Setting("control_number", FormatNat(f.control));
    var l3 := Setting("input_gain", FormatGain(f.gain));
    var l4 := Setting("curve", JoinSpace(PairTokens(f.curve)));
    var g2 := g1.(message := f.message);
    var g3 := if f.message == ControlChange then g2.(control := f.control) else g2;
    var g4 := g3.(gain := f.gain);
    var tail := [l3] + [l4];
    LoadCurveLast(g4, f.curve);
    LoadGainThen(g3, f.gain, [l4]);
    assert Load(g3, tail) == Loaded(g4.(curve := f.curve), false);
    var mid := (if f.message == ControlChange then [l2] else []) + tail;
    if f.message == ControlChange {
      LoadControlThen(g2, f.control, tail);
    } else {
      assert mid == tail;
    }
    assert Load(g2, mid) == Load(g3, tail);
    LoadMessageThen(g1, f.message, mid);
  }

  /** `control_number` is written exactly when the message kind is control change. */
  lemma SaveWritesControlOnlyForControlChange(f: Form)
    requires Savable(f)
    ensures f.message == ControlChange <==>
      exists i :: 0 <= i < |SaveLines(f)| && SaveLines(f)[i] == Setting("control_number", FormatNat(f.control))
  {
    var ls := SaveLines(f);
    var cl := Setting("control_number", FormatNat(f.control));
    assert cl[1] == 'o';
    if f.message == ControlChange {
      assert ls[2] == cl;
    } else {
      assert ls[0][1] == 'i' && ls[1][1] == 'i' && ls[2][1] == 'n' && ls[3][1] == 'u';
      assert forall i :: 0 <= i < |ls| ==> ls[i][1] != cl[1];
    }
  }
}
