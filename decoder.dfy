/**
 * The report decoder of the gamepad reader (`process_data` and its nested
 * `interpret_stick_axis`): fixed byte offsets of one interrupt-IN report are
 * mapped to the cross-key, the buttons, four stick axes, two triggers and the
 * two special buttons.
 */
module Decoder {
  import opened Basics

  /** A 16-bit stick reading. */
  type word = x: int | 0 <= x < 0x1_0000

  /** `b & mask` in a boolean context: some bit of `mask` is set in `b`. */
  predicate HasBit(b: byte, mask: byte) {
    b & mask != 0
  }

  // ---------------------------------------------------------------- cross-key

  datatype CrossKey = Up | Down | Left | Right | UpRight | DownLeft | UpLeft | DownRight

  /** The cross-key table, keyed by the low nibble of byte 2, entry for entry. */
  const CrossKeyMap: map<int, CrossKey> :=
    map[1 := Up, 2 := Down, 4 := Left, 8 := Right,
        9 := UpRight, 6 := DownLeft, 3 := UpLeft, 5 := DownRight]

  /** `b & 0x0F`: the low four bits of a byte. */
  function LowNibble(b: byte): (n: byte)
    ensures n < 16 && n as int == (b as int) % 16
  {
    b & 0x0F
  }

  /** The cross-key shown for a nibble, if the table has an entry for it. */
  function CrossKeyOf(nibble: byte): Option<CrossKey> {
    var key := nibble as int;
    if key in CrossKeyMap then Some(CrossKeyMap[key]) else None
  }

  /** Exactly the eight tabulated nibbles yield a cross-key; 0, 7 and 10..15 yield none. */
  lemma CrossKeyDomain(n: byte)
    ensures CrossKeyOf(n).Some? <==> n in {1, 2, 4, 8, 9, 6, 3, 5}
    ensures n < 16 && CrossKeyOf(n).None? <==> n in {0, 7, 10, 11, 12, 13, 14, 15}
  {
  }

  /** No two nibbles show the same cross-key. */
  lemma CrossKeyInjective(m: byte, n: byte)
    requires CrossKeyOf(m).Some? && CrossKeyOf(m) == CrossKeyOf(n)
    ensures m == n
  {
    CrossKeyDomain(m);
    CrossKeyDomain(n);
  }

  /** The four directions of the pad, one flag each. */
  datatype Pad = PadUp | PadDown | PadLeft | PadRight

  /** The directions that a cross-key label names. */
  function Pads(k: CrossKey): set<Pad> {
    match k
    case Up => {PadUp}
    case Down => {PadDown}
    case Left => {PadLeft}
    case Right => {PadRight}
    case UpRight => {PadUp, PadRight}
    case DownLeft => {PadDown, PadLeft}
    case UpLeft => {PadUp, PadLeft}
    case DownRight => {PadDown, PadRight}
  }

  /** The reading of a nibble as four independent flags, bit 0 up, bit 1 down,
      bit 2 left, bit 3 right. */
  function PadBits(n: byte): set<Pad> {
    (if HasBit(n, 0x01) then {PadUp} else {})
    + (if HasBit(n, 0x02) then {PadDown} else {})
    + (if HasBit(n, 0x04) then {PadLeft} else {})
    + (if HasBit(n, 0x08) then {PadRight} else {})
  }

  /** The table agrees with the flag reading on 1, 2, 4, 8, 9 and 6 and on no
      other nibble: 3 is shown as Up-Left where the flags say up and down, 5 as
      Down-Right where they say up and left, and 10 (down and right) is missing. */
  lemma {:induction false} CrossKeyAgainstBits(n: byte)
    requires n < 16
    ensures (CrossKeyOf(n).Some? && Pads(CrossKeyOf(n).value) == PadBits(n))
            <==> n in {1, 2, 4, 8, 9, 6}
  {
    if n == 1 {
      assert CrossKeyOf(n) == Some(Up);
      assert PadBits(n) == {PadUp};
    } else if n == 3 {
      assert PadDown in PadBits(n) && PadDown !in Pads(UpLeft);
    } else if n == 5 {
      assert PadUp in PadBits(n) && PadUp !in Pads(DownRight);
    } else if n == 2 {
      assert CrossKeyOf(n) == Some(Down);
      assert PadBits(n) == {PadDown};
    } else if n == 4 {
      assert CrossKeyOf(n) == Some(Left);
      assert PadBits(n) == {PadLeft};
    } else if n == 8 {
      assert CrossKeyOf(n) == Some(Right);
      assert PadBits(n) == {PadRight};
    } else if n == 9 {
      assert CrossKeyOf(n) == Some(UpRight);
      assert PadBits(n) == {PadUp, PadRight};
    } else if n == 6 {
      assert CrossKeyOf(n) == Some(DownLeft);
      assert PadBits(n) == {PadDown, PadLeft};
    }
  }

  // ------------------------------------------------------------------ buttons

  datatype Button = Start | Select | L1 | R1 | Mode | A | B | X | Y

  /** The button table of byte 2, in its insertion order. */
  const Byte2Buttons: seq<(byte, Button)> := [(0x10, Start), (0x20, Select)]

  /** The button table of byte 3, in its insertion order. */
  const Byte3Buttons: seq<(byte, Button)> :=
    [(0x01, L1), (0x02, R1), (0x04, Mode), (0x10, A), (0x20, B), (0x40, X), (0x80, Y)]

  /** Per button: whether it lives in byte 2 (otherwise byte 3). */
  predicate InByte2(btn: Button) {
    btn == Start || btn == Select
  }

  /** Per button: the bit that reports it. */
  function Mask(btn: Button): byte {
    match btn
    case Start => 0x10
    case Select => 0x20
    case L1 => 0x01
    case R1 => 0x02
    case Mode => 0x04
    case A => 0x10
    case B => 0x20
    case X => 0x40
    case Y => 0x80
  }

  /** Per button: its place in the order the two tables are walked. */
  function Rank(btn: Button): nat {
    match btn
    case Start => 0
    case Select => 1
    case L1 => 2
    case R1 => 3
    case Mode => 4
    case A => 5
    case B => 6
    case X => 7
    case Y => 8
  }

  /** The names of the table entries whose bit is set in `b`, in table order:
      what the `for bit, name in table.items()` loop appends. */
  function Matching(table: seq<(byte, Button)>, b: byte): seq<Button> {
    if table == [] then []
    else
      var last := table[|table| - 1];
      Matching(table[..|table| - 1], b) + (if HasBit(b, last.0) then [last.1] else [])
  }

  /** The buttons pressed according to bytes 2 and 3. */
  function Pressed(b2: byte, b3: byte): seq<Button> {
    Matching(Byte2Buttons, b2) + Matching(Byte3Buttons, b3)
  }

  /** One more entry of the table: its name is appended when its bit is set. */
  lemma MatchingStep(table: seq<(byte, Button)>, i: nat, b: byte)
    requires i < |table|
    ensures Matching(table[..i + 1], b)
            == Matching(table[..i], b) + (if HasBit(b, table[i].0) then [table[i].1] else [])
  {
    assert table[..i + 1][..i] == table[..i];
  }

  lemma {:induction false} MatchingMembers(table: seq<(byte, Button)>, b: byte, x: Button)
    ensures x in Matching(table, b)
            <==> exists i :: 0 <= i < |table| && table[i].1 == x && HasBit(b, table[i].0)
  {
    if table != [] {
      var front := table[..|table| - 1];
      MatchingMembers(front, b, x);
      if x in Matching(front, b) {
        var i :| 0 <= i < |front| && front[i].1 == x && HasBit(b, front[i].0);
        assert table[i] == front[i];
      }
      if exists i :: 0 <= i < |table| && table[i].1 == x && HasBit(b, table[i].0) {
        var i :| 0 <= i < |table| && table[i].1 == x && HasBit(b, table[i].0);
        if i < |front| {
          assert front[i] == table[i];
        }
      }
    }
  }

  lemma {:induction false} MatchingLength(table: seq<(byte, Button)>, b: byte)
    ensures |Matching(table, b)| <= |table|
  {
    if table != [] {
      MatchingLength(table[..|table| - 1], b);
    }
  }

  /** A list of buttons in strictly increasing rank. */
  predicate RankSorted(s: seq<Button>) {
    forall i, j :: 0 <= i < j < |s| ==> Rank(s[i]) < Rank(s[j])
  }

  lemma SortedAppend(s: seq<Button>, x: Button)
    requires RankSorted(s)
    requires forall k :: 0 <= k < |s| ==> Rank(s[k]) < Rank(x)
    ensures RankSorted(s + [x])
  {
    var t := s + [x];
    forall i, j | 0 <= i < j < |t| ensures Rank(t[i]) < Rank(t[j]) {
      assert t[i] == s[i];
      if j < |s| {
        assert t[j] == s[j];
      }
    }
  }

  /** A table whose ranks increase yields names whose ranks increase. */
  lemma {:induction false} MatchingOrdered(table: seq<(byte, Button)>, b: byte)
    requires forall i, j :: 0 <= i < j < |table| ==> Rank(table[i].1) < Rank(table[j].1)
    ensures RankSorted(Matching(table, b))
  {
    if table != [] {
      var front := table[..|table| - 1];
      var last := table[|table| - 1];
      MatchingOrdered(front, b);
      var f := Matching(front, b);
      if HasBit(b, last.0) {
        forall k | 0 <= k < |f|
          ensures Rank(f[k]) < Rank(last.1)
        {
          MatchingMembers(front, b, f[k]);
          var i :| 0 <= i < |front| && front[i].1 == f[k] && HasBit(b, front[i].0);
          assert front[i] == table[i];
        }
        SortedAppend(f, last.1);
      } else {
        assert Matching(table, b) == f + [];
      }
    }
  }

  /** Entries whose bit reads the same in two bytes give the same names. */
  lemma {:induction false} MatchingCongruent(table: seq<(byte, Button)>, b: byte, c: byte)
    requires forall i :: 0 <= i < |table| ==> HasBit(b, table[i].0) == HasBit(c, table[i].0)
    ensures Matching(table, b) == Matching(table, c)
  {
    if table != [] {
      var front := table[..|table| - 1];
      forall i | 0 <= i < |front|
        ensures HasBit(b, front[i].0) == HasBit(c, front[i].0)
      {
        assert front[i] == table[i];
      }
      MatchingCongruent(front, b, c);
    }
  }

  /** The two tables agree with the per-button reference entry for entry. */
  lemma TablesAgreeWithButtons()
    ensures forall i :: 0 <= i < |Byte2Buttons| ==>
              InByte2(Byte2Buttons[i].1) && Mask(Byte2Buttons[i].1) == Byte2Buttons[i].0
              && Rank(Byte2Buttons[i].1) == i
    ensures forall i :: 0 <= i < |Byte3Buttons| ==>
              !InByte2(Byte3Buttons[i].1) && Mask(Byte3Buttons[i].1) == Byte3Buttons[i].0
              && Rank(Byte3Buttons[i].1) == i + 2
  {
    forall i | 0 <= i < |Byte3Buttons|
      ensures !InByte2(Byte3Buttons[i].1) && Mask(Byte3Buttons[i].1) == Byte3Buttons[i].0
              && Rank(Byte3Buttons[i].1) == i + 2
    {
      assert i == 0 || i == 1 || i == 2 || i == 3 || i == 4 || i == 5 || i == 6;
    }
  }

  /** A button is listed exactly when its bit is set in its byte. */
  lemma PressedIffBitSet(b2: byte, b3: byte, btn: Button)
    ensures btn in Pressed(b2, b3) <==> HasBit(if InByte2(btn) then b2 else b3, Mask(btn))
  {
    TablesAgreeWithButtons();
    MatchingMembers(Byte2Buttons, b2, btn);
    MatchingMembers(Byte3Buttons, b3, btn);
    if HasBit(if InByte2(btn) then b2 else b3, Mask(btn)) {
      if InByte2(btn) {
        var i := if btn == Start then 0 else 1;
        assert Byte2Buttons[i].1 == btn;
      } else {
        var i := Rank(btn) - 2;
        assert Byte3Buttons[i].1 == btn;
      }
    }
  }

  /** The list follows table order (Start, Select, L1, R1, Mode, A, B, X, Y),
      so it has no duplicates and at most nine entries. */
  lemma SortedConcat(p: seq<Button>, q: seq<Button>)
    requires RankSorted(p) && RankSorted(q)
    requires forall i, j :: 0 <= i < |p| && 0 <= j < |q| ==> Rank(p[i]) < Rank(q[j])
    ensures RankSorted(p + q)
  {
    var r := p + q;
    forall i, j | 0 <= i < j < |r| ensures Rank(r[i]) < Rank(r[j]) {
      if j < |p| {
        assert r[i] == p[i] && r[j] == p[j];
      } else if i < |p| {
        assert r[i] == p[i] && r[j] == q[j - |p|];
      } else {
        assert r[i] == q[i - |p|] && r[j] == q[j - |p|];
      }
    }
  }

  /** In a sorted list the rank grows by at least one per place. */
  lemma {:induction false} RankGrows(r: seq<Button>, k: nat)
    requires RankSorted(r) && k < |r|
    ensures Rank(r[k]) >= Rank(r[0]) + k
  {
    if k > 0 {
      RankGrows(r, k - 1);
      assert Rank(r[k - 1]) < Rank(r[k]);
    }
  }

  lemma PressedInTableOrder(b2: byte, b3: byte)
    ensures var r := Pressed(b2, b3);
            && RankSorted(r)
            && (forall i, j :: 0 <= i < j < |r| ==> r[i] != r[j])
            && |r| <= 9
  {
    TablesAgreeWithButtons();
    MatchingOrdered(Byte2Buttons, b2);
    MatchingOrdered(Byte3Buttons, b3);
    MatchingLength(Byte2Buttons, b2);
    MatchingLength(Byte3Buttons, b3);
    var p := Matching(Byte2Buttons, b2);
    var q := Matching(Byte3Buttons, b3);
    forall k | 0 <= k < |p| ensures Rank(p[k]) < 2 {
      MatchingMembers(Byte2Buttons, b2, p[k]);
    }
    forall k | 0 <= k < |q| ensures Rank(q[k]) >= 2 {
      MatchingMembers(Byte3Buttons, b3, q[k]);
    }
    SortedConcat(p, q);
  }

  lemma KeepsBit(b: byte, keep: byte, mask: byte)
    requires mask & keep == mask
    ensures HasBit(b & keep, mask) == HasBit(b, mask)
  {
  }

  /** Bit 0x08 of byte 3 and every bit of byte 2 outside 0x30 leave the list unchanged. */
  lemma PressedIgnoresOtherBits(b2: byte, b3: byte)
    ensures Pressed((b2 & 0x30), (b3 & 0xF7)) == Pressed(b2, b3)
  {
    TablesAgreeWithButtons();
    forall i | 0 <= i < |Byte2Buttons|
      ensures HasBit((b2 & 0x30), Byte2Buttons[i].0) == HasBit(b2, Byte2Buttons[i].0)
    {
      KeepsBit(b2, 0x30, Byte2Buttons[i].0);
    }
    forall i | 0 <= i < |Byte3Buttons|
      ensures HasBit((b3 & 0xF7), Byte3Buttons[i].0) == HasBit(b3, Byte3Buttons[i].0)
    {
      KeepsBit(b3, 0xF7, Byte3Buttons[i].0);
    }
    MatchingCongruent(Byte2Buttons, (b2 & 0x30), b2);
    MatchingCongruent(Byte3Buttons, (b3 & 0xF7), b3);
  }

  /** The two `for` loops over the tables: each appends the name of every
      entry whose bit is set. */
  method PressedButtons(b2: byte, b3: byte) returns (pressed: seq<Button>)
    ensures pressed == Pressed(b2, b3)
  {
    pressed := [];
    for i := 0 to |Byte2Buttons|
      invariant pressed == Matching(Byte2Buttons[..i], b2)
    {
      var (bit, name) := Byte2Buttons[i];
      MatchingStep(Byte2Buttons, i, b2);
      if HasBit(b2, bit) {
        pressed := pressed + [name];
      }
    }
    assert Byte2Buttons[..|Byte2Buttons|] == Byte2Buttons;
    for i := 0 to |Byte3Buttons|
      invariant pressed == Matching(Byte2Buttons, b2) + Matching(Byte3Buttons[..i], b3)
    {
      var (bit, name) := Byte3Buttons[i];
      MatchingStep(Byte3Buttons, i, b3);
      if HasBit(b3, bit) {
        pressed := pressed + [name];
      }
    }
    assert Byte3Buttons[..|Byte3Buttons|] == Byte3Buttons;
  }

  // ------------------------------------------------------------------- sticks

  lemma ShiftOr(h: bv16, l: bv16)
    requires h < 256 && l < 256
    ensures (h << 8) | l == h * 256 + l
  {
  }

  lemma Widen(x: byte)
    ensures (x as bv16) < 256 && (x as bv16) as int == x as int
  {
  }

  lemma WordToInt(h: bv16, l: bv16)
    requires h < 256 && l < 256
    ensures (h * 256 + l) as int == (h as int) * 256 + (l as int)
  {
  }

  /** `(high_byte << 8) | low_byte` on sixteen bits. */
  function Join(low: byte, high: byte): bv16 {
    ((high as bv16) << 8) | (low as bv16)
  }

  lemma JoinValue(low: byte, high: byte)
    ensures Join(low, high) as int == (high as int) * 256 + (low as int)
  {
    var h, l := high as bv16, low as bv16;
    Widen(high);
    Widen(low);
    ShiftOr(h, l);
    assert Join(low, high) == h * 256 + l;
    WordToInt(h, l);
  }

  /** The value of the two bytes of an axis, low byte first. */
  function Word(low: byte, high: byte): (v: word)
    ensures v == (high as int) * 256 + (low as int)
  {
    JoinValue(low, high);
    Join(low, high) as int
  }

  /** The axis formula: a value up to 0x0080 reads as negative, a value from
      0xff7f on as positive, everything in between as neutral. */
  function Axis(value: word): (r: real)
    ensures -100.0 <= r <= 100.0
  {
    if value <= 0x0080 then -(((0x0080 - value) as real) / 128.0) * 100.0
    else if value >= 0xff7f then (((value - 0xff7f) as real) / 128.0) * 100.0
    else 0.0
  }

  /** `interpret_stick_axis(low_byte, high_byte)`. */
  function StickAxis(low: byte, high: byte): real {
    Axis(Word(low, high))
  }

  /** The landmarks of the axis formula. */
  lemma AxisLandmarks()
    ensures Axis(0) == -100.0 && Axis(0x0080) == 0.0
    ensures Axis(0xff7f) == 0.0 && Axis(0xffff) == 100.0
  {
  }

  /** Every value from 0x0080 to 0xff7f reads as neutral; this includes the
      two's-complement extremes 0x7fff and 0x8000. */
  lemma AxisNeutralBand(v: word)
    requires 0x0080 <= v <= 0xff7f
    ensures Axis(v) == 0.0
  {
  }

  /** The sign of the result is decided by the band the value falls in, and only
      the two ends of the range reach full scale. */
  lemma AxisSign(v: word)
    ensures Axis(v) < 0.0 <==> v < 0x0080
    ensures Axis(v) > 0.0 <==> v > 0xff7f
    ensures Axis(v) == -100.0 <==> v == 0
    ensures Axis(v) == 100.0 <==> v == 0xffff
  {
  }

  /** The formula never decreases as the value grows. */
  lemma AxisMonotone(v: word, w: word)
    requires v <= w
    ensures Axis(v) <= Axis(w)
  {
  }

  // ----------------------------------------------------------------- triggers

  /** `data[i] / 255`. */
  function TriggerRatio(b: byte): (r: real)
    ensures 0.0 <= r <= 1.0
  {
    (b as int as real) / 255.0
  }

  lemma TriggerLandmarks(b: byte, c: byte)
    ensures TriggerRatio(0) == 0.0 && TriggerRatio(255) == 1.0
    ensures b < c <==> TriggerRatio(b) < TriggerRatio(c)
  {
  }

  // ---------------------------------------------------------- special buttons

  datatype SpecialButton = Turbo | Clear

  /** The special buttons of byte 14: Turbo for 0x20, then Clear for 0x40. */
  function SpecialButtons(b14: byte): (r: seq<SpecialButton>)
    ensures Turbo in r <==> HasBit(b14, 0x20)
    ensures Clear in r <==> HasBit(b14, 0x40)
    ensures |r| <= 2 && (|r| == 2 ==> r == [Turbo, Clear])
  {
    (if HasBit(b14, 0x20) then [Turbo] else []) + (if HasBit(b14, 0x40) then [Clear] else [])
  }

  /** Every bit of byte 14 outside 0x60 is ignored. */
  lemma SpecialIgnoresOtherBits(b14: byte)
    ensures SpecialButtons((b14 & 0x60)) == SpecialButtons(b14)
  {
    KeepsBit(b14, 0x60, 0x20);
    KeepsBit(b14, 0x60, 0x40);
  }

  // ------------------------------------------------------------------- report

  datatype Stick = Stick(x: real, y: real)

  datatype Report = Report(
    crossKey: Option<CrossKey>,
    buttons: seq<Button>,
    leftStick: Stick,
    rightStick: Stick,
    leftTrigger: real,
    rightTrigger: real,
    special: seq<SpecialButton>)

  /** The parts of the decoding, in the order they index the report. */
  datatype Section = CrossKeySection | ButtonsSection | LeftStickSection
                   | RightStickSection | TriggersSection | SpecialSection

  /** What one call of the decoder comes to: nothing for empty data, a report,
      or the section whose indexing raised and was caught. */
  datatype Outcome = Skipped | Decoded(report: Report) | Truncated(failedIn: Section)

  /** Place of a section in the decoding order. */
  function Position(s: Section): nat {
    match s
    case CrossKeySection => 0
    case ButtonsSection => 1
    case LeftStickSection => 2
    case RightStickSection => 3
    case TriggersSection => 4
    case SpecialSection => 5
  }

  /** Length a report needs for a section to index it: one past its highest byte. */
  function Needs(s: Section): nat {
    match s
    case CrossKeySection => 3
    case ButtonsSection => 4
    case LeftStickSection => 10
    case RightStickSection => 14
    case TriggersSection => 6
    case SpecialSection => 15
  }

  /** The decoder on one report. */
  function Decode(data: seq<byte>): Outcome {
    if |data| == 0 then Skipped
    else if |data| < 3 then Truncated(CrossKeySection)
    else if |data| < 4 then Truncated(ButtonsSection)
    else if |data| < 10 then Truncated(LeftStickSection)
    else if |data| < 14 then Truncated(RightStickSection)
    else if |data| < 15 then Truncated(SpecialSection)
    else
      Decoded(Report(
        CrossKeyOf(LowNibble(data[2])),
        Pressed(data[2], data[3]),
        Stick(StickAxis(data[6], data[7]), StickAxis(data[8], data[9])),
        Stick(StickAxis(data[10], data[11]), StickAxis(data[12], data[13])),
        TriggerRatio(data[4]),
        TriggerRatio(data[5]),
        SpecialButtons(data[14])))
  }

  /** Empty data is skipped, fifteen bytes or more decode, anything in between
      fails. */
  lemma DecodeCases(data: seq<byte>)
    ensures Decode(data).Skipped? <==> |data| == 0
    ensures Decode(data).Decoded? <==> |data| >= 15
    ensures Decode(data).Truncated? <==> 0 < |data| < 15
  {
  }

  /** A short report fails in the first section, in decoding order, that needs
      more bytes than it has; the triggers therefore never fail. */
  lemma TruncatedAtFirstShortSection(data: seq<byte>)
    requires 0 < |data| < 15
    ensures Decode(data).Truncated?
    ensures Needs(Decode(data).failedIn) > |data|
    ensures forall s: Section :: Position(s) < Position(Decode(data).failedIn) ==> Needs(s) <= |data|
    ensures Decode(data).failedIn != TriggersSection
  {
  }

  /** Only bytes 2 to 14 are read: bytes 0 and 1 and everything after byte 14
      never change the result. */
  lemma DecodeReadsBytesTwoToFourteen(d: seq<byte>, e: seq<byte>)
    requires |d| >= 15 && |e| >= 15 && d[2..15] == e[2..15]
    ensures Decode(d) == Decode(e)
  {
    forall k | 2 <= k < 15 ensures d[k] == e[k] {
      assert d[k] == d[2..15][k - 2];
      assert e[k] == e[2..15][k - 2];
    }
  }

  /** Every decoded report has its values in range. */
  lemma DecodedInRange(data: seq<byte>)
    requires Decode(data).Decoded?
    ensures var r := Decode(data).report;
            && -100.0 <= r.leftStick.x <= 100.0 && -100.0 <= r.leftStick.y <= 100.0
            && -100.0 <= r.rightStick.x <= 100.0 && -100.0 <= r.rightStick.y <= 100.0
            && 0.0 <= r.leftTrigger <= 1.0 && 0.0 <= r.rightTrigger <= 1.0
            && |r.buttons| <= 9
            && (forall i, j :: 0 <= i < j < |r.buttons| ==> r.buttons[i] != r.buttons[j])
            && |r.special| <= 2
  {
    PressedInTableOrder(data[2], data[3]);
  }

  lemma ExamplePressed()
    ensures Pressed(0x01, 0x10) == [A]
  {
    var p := Pressed(0x01, 0x10);
    forall btn: Button ensures btn in p <==> btn == A {
      PressedIffBitSet(0x01, 0x10, btn);
    }
    PressedInTableOrder(0x01, 0x10);
    assert A in p;
    RankGrows(p, |p| - 1);
    assert p[0] in p && p[|p| - 1] in p;
  }

  /** One report worked through: cross-key Up, button A, both triggers partly
      pressed, Turbo; all-zero stick bytes read as full negative deflection. */
  lemma DecodeExample()
    ensures Decode([0, 0, 0x01, 0x10, 0x80, 0x40, 0, 0, 0, 0, 0, 0, 0, 0, 0x20])
            == Decoded(Report(Some(Up), [A], Stick(-100.0, -100.0), Stick(-100.0, -100.0),
                              128.0 / 255.0, 64.0 / 255.0, [Turbo]))
  {
    ExamplePressed();
    assert CrossKeyOf(LowNibble(0x01)) == Some(Up);
    assert StickAxis(0, 0) == -100.0;
    assert SpecialButtons(0x20) == [Turbo];
  }

  /** `process_data`: nothing for empty data; otherwise the report decoded
      section by section, where a section that indexes past the end of a short
      report raises, which the handler catches. */
  method ProcessData(data: seq<byte>) returns (outcome: Outcome)
    ensures outcome == Decode(data)
  {
    if |data| == 0 {
      return Skipped;
    }
    if |data| < 3 {
      return Truncated(CrossKeySection);
    }
    var crossKey := CrossKeyOf(LowNibble(data[2]));
    if |data| < 4 {
      return Truncated(ButtonsSection);
    }
    var buttons := PressedButtons(data[2], data[3]);
    if |data| < 10 {
      return Truncated(LeftStickSection);
    }
    var left := Stick(StickAxis(data[6], data[7]), StickAxis(data[8], data[9]));
    if |data| < 14 {
      return Truncated(RightStickSection);
    }
    var right := Stick(StickAxis(data[10], data[11]), StickAxis(data[12], data[13]));
    var l2, r2 := TriggerRatio(data[4]), TriggerRatio(data[5]);
    if |data| < 15 {
      return Truncated(SpecialSection);
    }
    var special := [];
    if HasBit(data[14], 0x20) {
      special := special + [Turbo];
    }
    if HasBit(data[14], 0x40) {
      special := special + [Clear];
    }
    outcome := Decoded(Report(crossKey, buttons, left, right, l2, r2, special));
  }
}
