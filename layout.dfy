/**
 * The C-system button layout of src/utils/layout.js.
 *
 * A board of `numRows` vertical button rows (boardRow, 0..4) each holding
 * `numCols` buttons (boardCol). Moving one button along a row is a minor third
 * (3 semitones); the three distinct rows are a semitone apart and rows 3 and 4
 * repeat rows 0 and 1.
 */
module Layout {
  import opened Wrappers

  /** MIDI note of the first button of row 0 at start octave 3 (C3). */
  const BaseNote: int := 48

  /** Per-row semitone offsets from C; only five rows are defined. */
  const RowNoteOffsets: seq<int> := [0, 1, 2, 0, 1]

  /** Pitch-class names, one fixed mixed sharp/flat spelling. */
  const Notes: seq<string> := ["C", "C#", "D", "Eb", "E", "F", "F#", "G", "Ab", "A", "Bb", "B"]

  /** Pitch classes drawn as black keys. */
  const BlackPitchClasses: set<int> := {1, 3, 6, 8, 10}

  /** One button record; the frequency field is not modelled. */
  datatype Button = Button(
    id: string,
    boardRow: nat,
    boardCol: nat,
    note: int,
    labelText: Option<string>,   // `label`; None where JavaScript yields `undefined`
    isBlack: bool)

  /** JavaScript's `midi % 12`: the remainder truncated toward zero. */
  function JsRem12(midi: int): (r: int)
    ensures -12 < r < 12
    ensures (midi - r) % 12 == 0
    ensures midi >= 0 ==> r == midi % 12
    ensures midi <= 0 ==> r <= 0
  {
    if midi >= 0 then midi % 12 else -((-midi) % 12)
  }

  /**
   * getNoteLabel: `NOTES[midi % 12]`. A negative remainder indexes past the
   * table and gives `undefined`; `-0` (a negative multiple of 12) reads "C".
   */
  function NoteLabel(midi: int): (r: Option<string>)
    ensures r.Some? <==> (midi >= 0 || midi % 12 == 0)
    ensures midi >= 0 ==> r == Some(Notes[midi % 12])
    ensures r.Some? ==> r.value in Notes
  {
    var noteIndex := JsRem12(midi);
    if 0 <= noteIndex then Some(Notes[noteIndex]) else None
  }

  /**
   * isBlackKey: `[1, 3, 6, 8, 10].includes(midi % 12)`. With JavaScript's
   * remainder no negative note is ever black.
   */
  function IsBlackKey(midi: int): (r: bool)
    ensures r <==> midi >= 0 && midi % 12 in BlackPitchClasses
  {
    var noteIndex := JsRem12(midi);
    noteIndex in BlackPitchClasses
  }

  /** One octave up keeps the pitch class of a non-negative note. */
  lemma PitchClassStep(midi: int)
    requires midi >= 0
    ensures NoteLabel(midi + 12) == NoteLabel(midi)
    ensures IsBlackKey(midi + 12) == IsBlackKey(midi)
  {
    assert (midi + 12) % 12 == midi % 12;
  }

  /** Both the label and the black flag depend only on the pitch class. */
  lemma {:induction false} PitchClassPeriodic(midi: int, k: nat)
    requires midi >= 0
    ensures NoteLabel(midi + 12 * k) == NoteLabel(midi)
    ensures IsBlackKey(midi + 12 * k) == IsBlackKey(midi)
  {
    if k > 0 {
      PitchClassPeriodic(midi, k - 1);
      PitchClassStep(midi + 12 * (k - 1));
      assert midi + 12 * (k - 1) + 12 == midi + 12 * k;
    }
  }

  /** Exactly the black keys carry an accidental ('#' or 'b') in their label. */
  lemma BlackKeysHaveAccidentals(midi: int)
    requires midi >= 0
    ensures NoteLabel(midi).Some?
    ensures IsBlackKey(midi) <==> |NoteLabel(midi).value| == 2
  {
    var pc := midi % 12;
    assert 0 <= pc < 12;
    assert pc == 0 || pc == 1 || pc == 2 || pc == 3 || pc == 4 || pc == 5 ||
           pc == 6 || pc == 7 || pc == 8 || pc == 9 || pc == 10 || pc == 11;
  }

  // ---- ids: `r${r}-c${c}` --------------------------------------------------

  function DigitChar(d: nat): (ch: char)
    requires d < 10
    ensures '0' <= ch <= '9' && ch as int == '0' as int + d
  {
    ('0' as int + d) as char
  }

  /** The number a string of decimal digits denotes. */
  function DigitsValue(s: string): nat
  {
    if |s| == 0 then 0
    else
      var d := s[|s| - 1] as int - '0' as int;
      DigitsValue(s[..|s| - 1]) * 10 + (if 0 <= d then d else 0)
  }

  /**
   * JavaScript's decimal rendering of a non-negative integer: digits only,
   * no leading zero, and it reads back as n.
   */
  function Decimal(n: nat): (s: string)
    ensures |s| >= 1
    ensures forall i :: 0 <= i < |s| ==> '0' <= s[i] <= '9'
    ensures s[0] == '0' <==> n == 0
    ensures DigitsValue(s) == n
  {
    if n < 10 then [DigitChar(n)]
    else
      var s := Decimal(n / 10) + [DigitChar(n % 10)];
      assert s[..|s| - 1] == Decimal(n / 10);
      s
  }

  /** One-digit renderings are exactly those of the numbers below ten. */
  lemma DecimalSingleDigit(n: nat)
    ensures |Decimal(n)| == 1 <==> n < 10
  {
    if n >= 10 {
      assert |Decimal(n)| == |Decimal(n / 10)| + 1;
    }
  }

  /** Distinct numbers have distinct decimal renderings. */
  lemma {:induction false} DecimalInjective(a: nat, b: nat)
    requires Decimal(a) == Decimal(b)
    ensures a == b
  {
    DecimalSingleDigit(a);
    DecimalSingleDigit(b);
    if a < 10 {
      assert b < 10;
      assert Decimal(a)[0] == DigitChar(a) && Decimal(b)[0] == DigitChar(b);
    } else {
      assert b >= 10;
      var sa, sb := Decimal(a), Decimal(b);
      assert sa[..|sa| - 1] == Decimal(a / 10);
      assert sb[..|sb| - 1] == Decimal(b / 10);
      DecimalInjective(a / 10, b / 10);
      assert DigitChar(a % 10) == sa[|sa| - 1] == DigitChar(b % 10);
    }
  }

  /** The id of the button in row r, column c. */
  /**
   * The id of the button in row r, column c; it parses back: after the
   * leading 'r' the row digits run up to the first non-digit, which starts
   * "-c" and the column digits.
   */
  function ButtonId(r: nat, c: nat): (id: string)
    ensures |id| >= 4 && id[0] == 'r'
    ensures DigitRun(id[1..]) == |Decimal(r)|
    ensures DigitsValue(id[1..1 + DigitRun(id[1..])]) == r
    ensures id[1 + DigitRun(id[1..])..] == "-c" + Decimal(c)
  {
    var id := "r" + (Decimal(r) + ("-c" + Decimal(c)));
    DropPrefix("r", Decimal(r) + ("-c" + Decimal(c)));
    DigitRunOf(Decimal(r), "-c" + Decimal(c));
    assert id[1..1 + |Decimal(r)|] == Decimal(r);
    id
  }

  /** Length of the leading run of decimal digits. */
  function DigitRun(s: string): (n: nat)
    ensures n <= |s|
  {
    if |s| > 0 && '0' <= s[0] <= '9' then 1 + DigitRun(s[1..]) else 0
  }

  lemma {:induction false} DigitRunOf(d: string, t: string)
    requires forall i :: 0 <= i < |d| ==> '0' <= d[i] <= '9'
    requires |t| > 0 && t[0] == '-'
    ensures DigitRun(d + t) == |d|
  {
    if |d| > 0 {
      assert (d + t)[1..] == d[1..] + t;
      DigitRunOf(d[1..], t);
    } else {
      assert d + t == t;
    }
  }

  /** The first '-' of an id ends the row digits. */
  lemma SplitAtDash(d1: string, t1: string, d2: string, t2: string)
    requires forall i :: 0 <= i < |d1| ==> '0' <= d1[i] <= '9'
    requires forall i :: 0 <= i < |d2| ==> '0' <= d2[i] <= '9'
    requires |t1| > 0 && |t2| > 0 && t1[0] == '-' && t2[0] == '-'
    requires d1 + t1 == d2 + t2
    ensures d1 == d2 && t1 == t2
  {
    DigitRunOf(d1, t1);
    DigitRunOf(d2, t2);
    assert |d1| == |d2|;
    assert d1 == (d1 + t1)[..|d1|];
    assert d2 == (d2 + t2)[..|d2|];
    assert t1 == (d1 + t1)[|d1|..];
    assert t2 == (d2 + t2)[|d2|..];
  }

  /** Ids determine their grid position: no two buttons share an id. */
  lemma ButtonIdInjective(r1: nat, c1: nat, r2: nat, c2: nat)
    requires ButtonId(r1, c1) == ButtonId(r2, c2)
    ensures r1 == r2 && c1 == c2
  {
    var t1, t2 := "-c" + Decimal(c1), "-c" + Decimal(c2);
    DropPrefix("r", Decimal(r1) + t1);
    DropPrefix("r", Decimal(r2) + t2);
    SplitAtDash(Decimal(r1), t1, Decimal(r2), t2);
    DecimalInjective(r1, r2);
    DropPrefix("-c", Decimal(c1));
    DropPrefix("-c", Decimal(c2));
    DecimalInjective(c1, c2);
  }

  lemma DropPrefix(p: string, s: string)
    ensures (p + s)[|p|..] == s
  {
  }

  // ---- the grid ------------------------------------------------------------

  /** MIDI note of the button in row r, column c. */
  function NoteAt(r: nat, c: nat, startOctave: int): (note: int)
    requires r < |RowNoteOffsets|
    ensures note == BaseNote + 3 * c + r % 3 + 12 * (startOctave - 3)
  {
    BaseNote + c * 3 + RowNoteOffsets[r] + (startOctave - 3) * 12
  }

  /** The record pushed for row r, column c. */
  function ButtonAt(r: nat, c: nat, startOctave: int): (b: Button)
    requires r < |RowNoteOffsets|
    ensures b.boardRow == r && b.boardCol == c
    ensures b.note == BaseNote + 3 * c + RowNoteOffsets[r] + 12 * (startOctave - 3)
  {
    var note := NoteAt(r, c, startOctave);
    Button(ButtonId(r, c), r, c, note, NoteLabel(note), IsBlackKey(note))
  }

  /** Isometry along a row: the next button is a minor third higher. */
  lemma ColumnStep(r: nat, c: nat, startOctave: int)
    requires r < |RowNoteOffsets|
    ensures ButtonAt(r, c + 1, startOctave).note == ButtonAt(r, c, startOctave).note + 3
  {
  }

  /** Isometry across rows 0, 1, 2: each row is a semitone above the previous. */
  lemma RowStep(r: nat, c: nat, startOctave: int)
    requires r < 2
    ensures ButtonAt(r + 1, c, startOctave).note == ButtonAt(r, c, startOctave).note + 1
  {
  }

  /** Rows 3 and 4 repeat the notes of rows 0 and 1. */
  lemma DuplicateRows(r: nat, c: nat, startOctave: int)
    requires 3 <= r < 5
    ensures ButtonAt(r, c, startOctave).note == ButtonAt(r - 3, c, startOctave).note
  {
  }

  /** Raising the start octave transposes every button by 12 semitones. */
  lemma OctaveShift(r: nat, c: nat, startOctave: int)
    requires r < |RowNoteOffsets|
    ensures ButtonAt(r, c, startOctave + 1).note == ButtonAt(r, c, startOctave).note + 12
    ensures ButtonAt(r, c, startOctave).note >= 0 ==>
      ButtonAt(r, c, startOctave + 1).isBlack == ButtonAt(r, c, startOctave).isBlack &&
      ButtonAt(r, c, startOctave + 1).labelText == ButtonAt(r, c, startOctave).labelText
  {
    var n := ButtonAt(r, c, startOctave).note;
    if n >= 0 {
      PitchClassPeriodic(n, 1);
    }
  }

  /** With start octave 2 the first button is C2, MIDI note 36. */
  lemma StartOctaveTwo()
    ensures ButtonAt(0, 0, 2).note == 36 && ButtonAt(0, 0, 2).labelText == Some("C")
    ensures !ButtonAt(0, 0, 2).isBlack && ButtonAt(0, 0, 2).id == "r0-c0"
  {
    assert Decimal(0) == "0";
  }

  /** A loop bound as the loop sees it: non-positive counts run no iteration. */
  function Count(n: int): nat
  {
    if n > 0 then n else 0
  }

  lemma {:induction false} MulMonotone(n: nat, a: nat, b: nat)
    requires a <= b
    ensures n * a <= n * b
  {
    if a < b {
      MulMonotone(n, a, b - 1);
      assert n * b == n * (b - 1) + n;
    }
  }

  lemma DivMod(i: nat, n: nat)
    requires n > 0
    ensures i == (i / n) * n + i % n && 0 <= i % n < n
  {
  }

  /** Index r * n + c of a row-major grid lies in row r, column c. */
  lemma RowMajor(r: nat, c: nat, n: nat)
    requires c < n
    ensures (r * n + c) / n == r && (r * n + c) % n == c
  {
    var i := r * n + c;
    var q, m := i / n, i % n;
    DivMod(i, n);
    if q < r {
      MulMonotone(n, q + 1, r);
      assert false;
    } else if q > r {
      MulMonotone(n, r + 1, q);
      assert false;
    }
  }

  lemma RowMajorBound(r: nat, c: nat, rows: nat, n: nat)
    requires r < rows && c < n
    ensures r * n + c < rows * n
  {
    MulMonotone(n, r + 1, rows);
    assert n * (r + 1) == n * r + n;
  }

  /** Button i of a row-major grid with n columns sits at (i / n, i % n). */
  ghost predicate Placed(buttons: seq<Button>, i: nat, n: int, startOctave: int)
    requires i < |buttons| && n > 0
  {
    i / n < |RowNoteOffsets| && buttons[i] == ButtonAt(i / n, i % n, startOctave)
  }

  /** The first `count` buttons of row r, in column order. */
  function RowOf(r: nat, count: nat, startOctave: int): (row: seq<Button>)
    requires r < |RowNoteOffsets|
    ensures |row| == count
  {
    seq(count, c requires 0 <= c < count => ButtonAt(r, c, startOctave))
  }

  /** Rows 0 .. rows - 1 of `cols` buttons each, row after row. */
  function Grid(rows: nat, cols: nat, startOctave: int): (g: seq<Button>)
    requires rows <= |RowNoteOffsets|
    ensures |g| == rows * cols
  {
    if rows == 0 then []
    else
      var prev, row := Grid(rows - 1, cols, startOctave), RowOf(rows - 1, cols, startOctave);
      assert rows * cols == (rows - 1) * cols + cols;
      prev + row
  }

  /** The grid is row-major: index i holds button (i / cols, i % cols). */
  lemma {:induction false} GridPlaced(rows: nat, cols: nat, startOctave: int)
    requires rows <= |RowNoteOffsets|
    ensures |Grid(rows, cols, startOctave)| == rows * cols
    ensures cols > 0 ==> forall i :: 0 <= i < rows * cols ==> Placed(Grid(rows, cols, startOctave), i, cols, startOctave)
  {
    if rows > 0 {
      GridPlaced(rows - 1, cols, startOctave);
      var prev, g := Grid(rows - 1, cols, startOctave), Grid(rows, cols, startOctave);
      assert rows * cols == (rows - 1) * cols + cols;
      if cols > 0 {
        forall i | 0 <= i < rows * cols ensures Placed(g, i, cols, startOctave) {
          if i < |prev| {
            assert Placed(prev, i, cols, startOctave);
            assert g[i] == prev[i];
          } else {
            var c := i - |prev|;
            RowMajor(rows - 1, c, cols);
            assert g[i] == RowOf(rows - 1, cols, startOctave)[c];
          }
        }
      }
    }
  }

  /**
   * generateLayout: nested loops over r and c pushing one record each.
   * Row 5 and beyond have no offset (the source computes NaN), hence numRows <= 5.
   */
  method GenerateLayout(numRows: int, numCols: int, startOctave: int) returns (buttons: seq<Button>)
    requires numRows <= |RowNoteOffsets|
    ensures |buttons| == Count(numRows) * Count(numCols)
    ensures forall r: nat, c: nat :: r < numRows && c < numCols ==>
      r * numCols + c < |buttons| && buttons[r * numCols + c] == ButtonAt(r, c, startOctave)
    ensures numCols > 0 ==> forall i :: 0 <= i < |buttons| ==> Placed(buttons, i, numCols, startOctave)
    ensures forall i, j :: 0 <= i < j < |buttons| ==> buttons[i].id != buttons[j].id
  {
    buttons := [];
    ghost var n := Count(numCols);
    var r := 0;
    while r < numRows
      invariant 0 <= r <= Count(numRows)
      invariant buttons == Grid(r, n, startOctave)
    {
      var noteOffset := RowNoteOffsets[r];
      var c := 0;
      while c < numCols
        invariant 0 <= c <= n
        invariant buttons == Grid(r, n, startOctave) + RowOf(r, c, startOctave)
      {
        var note := BaseNote + (c * 3) + noteOffset;
        note := note + (startOctave - 3) * 12;
        assert RowOf(r, c + 1, startOctave) == RowOf(r, c, startOctave) + [ButtonAt(r, c, startOctave)];
        buttons := buttons + [Button(ButtonId(r, c), r, c, note, NoteLabel(note), IsBlackKey(note))];
        c := c + 1;
      }
      r := r + 1;
    }
    GridPlaced(r, n, startOctave);
    forall r: nat, c: nat | r < numRows && c < numCols
      ensures r * numCols + c < |buttons| && buttons[r * numCols + c] == ButtonAt(r, c, startOctave)
    {
      PlacedAt(buttons, numRows, numCols, startOctave, r, c);
    }
    forall i, j | 0 <= i < j < |buttons| ensures buttons[i].id != buttons[j].id {
      PlacedIdsDistinct(buttons, numCols, startOctave, i, j);
    }
  }

  /** In a placed grid, button (r, c) is at index r * numCols + c. */
  lemma PlacedAt(buttons: seq<Button>, numRows: nat, numCols: nat, startOctave: int, r: nat, c: nat)
    requires numRows <= |RowNoteOffsets|
    requires |buttons| == numRows * numCols
    requires numCols > 0 ==> forall i :: 0 <= i < |buttons| ==> Placed(buttons, i, numCols, startOctave)
    requires r < numRows && c < numCols
    ensures r * numCols + c < |buttons| && buttons[r * numCols + c] == ButtonAt(r, c, startOctave)
  {
    RowMajorBound(r, c, numRows, numCols);
    RowMajor(r, c, numCols);
    assert Placed(buttons, r * numCols + c, numCols, startOctave);
  }

  /** In a placed grid, buttons at different indices have different ids. */
  lemma PlacedIdsDistinct(buttons: seq<Button>, numCols: int, startOctave: int, i: nat, j: nat)
    requires i < j < |buttons| && numCols > 0
    requires forall k :: 0 <= k < |buttons| ==> Placed(buttons, k, numCols, startOctave)
    ensures buttons[i].id != buttons[j].id
  {
    assert Placed(buttons, i, numCols, startOctave) && Placed(buttons, j, numCols, startOctave);
    if buttons[i].id == buttons[j].id {
      ButtonIdInjective(i / numCols, i % numCols, j / numCols, j % numCols);
      DivMod(i, numCols);
      DivMod(j, numCols);
      assert false;
    }
  }

  /** The grid's notes: a 5 x 14 board from octave 3 covers 48..89 without gaps. */
  lemma {:induction false} StandardBoardNotes(buttons: seq<Button>, note: int)
    requires |buttons| == 70
    requires forall i :: 0 <= i < |buttons| ==> Placed(buttons, i, 14, 3)
    ensures (exists i :: 0 <= i < |buttons| && buttons[i].note == note) <==> 48 <= note <= 89
  {
    if 48 <= note <= 89 {
      var r, c := (note - 48) % 3, (note - 48) / 3;
      assert Placed(buttons, r * 14 + c, 14, 3);
      RowMajor(r, c, 14);
      assert buttons[r * 14 + c].note == note;
    }
    forall i | 0 <= i < |buttons| && buttons[i].note == note ensures 48 <= note <= 89 {
      assert Placed(buttons, i, 14, 3);
    }
  }
}
