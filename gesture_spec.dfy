/**
 * The pointer handlers of src/components/Accordion.jsx as transitions of a
 * value, so that several events can be related by lemmas.
 *
 * A `Board` is what the handlers read and write: the pointer table
 * (`pointersRef.current`, pointer id -> note), the highlighted notes
 * (`activeNotes`) and the notes the audio engine has a voice for (the keys of
 * `activeNodes`). The hit test (`getNoteFromEvent`) is an input: the note of
 * the button under the pointer, or None.
 */
module GestureSpec {
  import opened Wrappers
  import opened Layout

  datatype Board = Board(pointers: map<int, int>, active: set<int>, sounding: set<int>)

  /** `pointersRef.current.get(id)`: None plays the part of `undefined`. */
  function Lookup(pointers: map<int, int>, pointerId: int): (r: Option<int>)
    ensures r.Some? <==> pointerId in pointers
    ensures r.Some? ==> r.value == pointers[pointerId]
  {
    if pointerId in pointers then Some(pointers[pointerId]) else None
  }

  /** Some button of the layout carries this note. */
  ghost predicate OnBoard(buttons: seq<Button>, note: int)
  {
    exists i :: 0 <= i < |buttons| && buttons[i].note == note
  }

  /** The hit test only ever reports notes of rendered buttons. */
  ghost predicate HitOnBoard(buttons: seq<Button>, hit: Option<int>)
  {
    hit.Some? ==> OnBoard(buttons, hit.value)
  }

  /** `buttons.find(b => b.note === note)`: the first button with that note. */
  function FindByNote(buttons: seq<Button>, note: int): (r: Option<Button>)
    ensures r.Some? <==> OnBoard(buttons, note)
    ensures r.Some? ==> r.value.note == note && exists i :: (0 <= i < |buttons| && buttons[i] == r.value &&
      forall j :: 0 <= j < i ==> buttons[j].note != note)
  {
    if |buttons| == 0 then None
    else if buttons[0].note == note then Some(buttons[0])
    else
      var r := FindByNote(buttons[1..], note);
      assert forall i :: 1 <= i < |buttons| ==> buttons[i] == buttons[1..][i - 1];
      r
  }

  /** Some pointer other than `pointerId` holds `note`. */
  ghost predicate HeldByOther(pointers: map<int, int>, note: int, pointerId: int)
  {
    exists p :: p in pointers && p != pointerId && pointers[p] == note
  }

  /** `newNote !== oldNote` where null (no hit) and undefined (untracked) always differ. */
  function Differs(newNote: Option<int>, oldNote: Option<int>): (r: bool)
    ensures r <==> newNote.None? || newNote != oldNote
  {
    !(newNote.Some? && oldNote.Some? && newNote.value == oldNote.value)
  }

  /** playNote: sound and highlight the note if a button carries it. */
  ghost function PlayNote(b: Board, buttons: seq<Button>, note: int): (r: Board)
    ensures r.pointers == b.pointers
    ensures OnBoard(buttons, note) ==> note in r.active && note in r.sounding
    ensures !OnBoard(buttons, note) ==> r == b
    ensures forall n :: n != note ==> (n in r.active <==> n in b.active) && (n in r.sounding <==> n in b.sounding)
  {
    if FindByNote(buttons, note).Some? then
      b.(active := b.active + {note}, sounding := b.sounding + {note})
    else b
  }

  /** stopNote: silence and unhighlight the note unless another pointer still holds it. */
  ghost function StopNote(b: Board, note: int, pointerId: int): (r: Board)
    ensures r.pointers == b.pointers
    ensures r.active <= b.active && r.sounding <= b.sounding
    ensures HeldByOther(b.pointers, note, pointerId) ==> r == b
  {
    if HeldByOther(b.pointers, note, pointerId) then b
    else b.(active := b.active - {note}, sounding := b.sounding - {note})
  }

  /** handlePointerDown */
  ghost function PointerDown(b: Board, buttons: seq<Button>, pointerId: int, hit: Option<int>): (r: Board)
    ensures hit.None? ==> r == b
    ensures hit.Some? ==> r.pointers == b.pointers[pointerId := hit.value]
    ensures b.active <= r.active && b.sounding <= r.sounding
    ensures HitOnBoard(buttons, hit) && hit.Some? ==> hit.value in r.active && hit.value in r.sounding
  {
    match hit
    case None => b
    case Some(note) => PlayNote(b.(pointers := b.pointers[pointerId := note]), buttons, note)
  }

  /** handlePointerMove; `pressedButtons` is the event's `buttons` bit mask. */
  ghost function PointerMove(b: Board, buttons: seq<Button>, pointerId: int, pressedButtons: int,
                             hit: Option<int>): (r: Board)
    ensures pointerId !in b.pointers && pressedButtons == 0 ==> r == b
    ensures hit.None? ==> pointerId !in r.pointers
    ensures hit.Some? && (pointerId in b.pointers || pressedButtons != 0) ==>
      pointerId in r.pointers && r.pointers[pointerId] == hit.value
    ensures forall p :: p != pointerId ==>
      (p in r.pointers <==> p in b.pointers) && (p in b.pointers ==> r.pointers[p] == b.pointers[p])
  {
    if pointerId !in b.pointers && pressedButtons == 0 then b
    else
      var oldNote := Lookup(b.pointers, pointerId);
      if !Differs(hit, oldNote) then b
      else
        var b1 := if oldNote.Some? then StopNote(b, oldNote.value, pointerId) else b;
        match hit
        case Some(note) => PlayNote(b1.(pointers := b1.pointers[pointerId := note]), buttons, note)
        case None => b1.(pointers := b1.pointers - {pointerId})
  }

  /** handlePointerUp, also bound to pointer cancel and pointer leave. */
  ghost function PointerUp(b: Board, pointerId: int): (r: Board)
    ensures r.pointers == b.pointers - {pointerId}
    ensures r.active <= b.active && r.sounding <= b.sounding
  {
    if pointerId in b.pointers then
      var b1 := StopNote(b, b.pointers[pointerId], pointerId);
      b1.(pointers := b1.pointers - {pointerId})
    else b
  }

  /** The notes some pointer holds: the values of the pointer table. */
  ghost function HeldNotes(pointers: map<int, int>): set<int>
  {
    set p | p in pointers :: pointers[p]
  }

  /** The main invariant: a note is highlighted iff some pointer holds it. */
  ghost predicate Consistent(b: Board)
  {
    b.active == HeldNotes(b.pointers)
  }

  /** The audio engine has a voice for exactly the highlighted notes. */
  ghost predicate EngineAgrees(b: Board)
  {
    b.sounding == b.active
  }

  // ---- facts about the pointer table ---------------------------------------

  lemma Holder(pointers: map<int, int>, note: int) returns (p: int)
    requires note in HeldNotes(pointers)
    ensures p in pointers && pointers[p] == note
  {
    p :| p in pointers && pointers[p] == note;
  }

  lemma ValuesRemove(pointers: map<int, int>, pointerId: int)
    requires pointerId in pointers
    ensures HeldNotes(pointers - {pointerId}) ==
      if HeldByOther(pointers, pointers[pointerId], pointerId) then HeldNotes(pointers)
      else HeldNotes(pointers) - {pointers[pointerId]}
  {
    var rest := pointers - {pointerId};
    var note := pointers[pointerId];
    forall n | n in HeldNotes(pointers) && n != note ensures n in HeldNotes(rest) {
      var p := Holder(pointers, n);
      assert p in rest && rest[p] == n;
    }
    forall n | n in HeldNotes(rest) ensures n in HeldNotes(pointers) {
      var p := Holder(rest, n);
      assert p in pointers && pointers[p] == n;
    }
    if HeldByOther(pointers, note, pointerId) {
      var p :| p in pointers && p != pointerId && pointers[p] == note;
      assert p in rest && rest[p] == note;
    }
  }

  lemma ValuesUpdate(pointers: map<int, int>, pointerId: int, note: int)
    ensures HeldNotes(pointers[pointerId := note]) == HeldNotes(pointers - {pointerId}) + {note}
  {
    var upd, rest := pointers[pointerId := note], pointers - {pointerId};
    forall n | n in HeldNotes(rest) ensures n in HeldNotes(upd) {
      var p := Holder(rest, n);
      assert p in upd && upd[p] == n;
    }
    forall n | n in HeldNotes(upd) ensures n in HeldNotes(rest) + {note} {
      var p := Holder(upd, n);
      if p != pointerId {
        assert p in rest && rest[p] == n;
      }
    }
    assert upd[pointerId] == note;
  }

  // ---- stopNote ------------------------------------------------------------

  /**
   * stopNote leaves the pointer table alone, and removes the note from the
   * highlighted and sounding sets iff no other pointer holds it.
   */
  lemma StopNoteEffect(b: Board, note: int, pointerId: int)
    ensures StopNote(b, note, pointerId).pointers == b.pointers
    ensures var r := StopNote(b, note, pointerId);
      (note !in r.active <==> !HeldByOther(b.pointers, note, pointerId) || note !in b.active) &&
      (note !in r.sounding <==> !HeldByOther(b.pointers, note, pointerId) || note !in b.sounding)
    ensures var r := StopNote(b, note, pointerId);
      forall n :: n != note ==> (n in r.active <==> n in b.active) && (n in r.sounding <==> n in b.sounding)
  {
  }

  // ---- the invariants are kept ---------------------------------------------

  /** Handlers change the engine's notes and the highlighted notes in step. */
  lemma HandlersKeepEngineAgreement(b: Board, buttons: seq<Button>, pointerId: int, pressedButtons: int,
                                    hit: Option<int>)
    requires EngineAgrees(b)
    ensures EngineAgrees(PointerDown(b, buttons, pointerId, hit))
    ensures EngineAgrees(PointerMove(b, buttons, pointerId, pressedButtons, hit))
    ensures EngineAgrees(PointerUp(b, pointerId))
  {
  }

  lemma {:induction false} DownKeepsConsistent(b: Board, buttons: seq<Button>, pointerId: int, hit: Option<int>)
    requires Consistent(b) && pointerId !in b.pointers && HitOnBoard(buttons, hit)
    ensures Consistent(PointerDown(b, buttons, pointerId, hit))
  {
    if hit.Some? {
      ValuesUpdate(b.pointers, pointerId, hit.value);
      assert b.pointers - {pointerId} == b.pointers;
    }
  }

  lemma {:induction false} UpKeepsConsistent(b: Board, pointerId: int)
    requires Consistent(b)
    ensures Consistent(PointerUp(b, pointerId))
  {
    if pointerId in b.pointers {
      ValuesRemove(b.pointers, pointerId);
    }
  }

  lemma {:induction false} MoveKeepsConsistent(b: Board, buttons: seq<Button>, pointerId: int, pressedButtons: int,
                                               hit: Option<int>)
    requires Consistent(b) && HitOnBoard(buttons, hit)
    ensures Consistent(PointerMove(b, buttons, pointerId, pressedButtons, hit))
  {
    if pointerId in b.pointers {
      ValuesRemove(b.pointers, pointerId);
    } else {
      assert b.pointers - {pointerId} == b.pointers;
    }
    if hit.Some? {
      ValuesUpdate(b.pointers, pointerId, hit.value);
    }
  }

  // ---- chording, glissando and the ignored events --------------------------

  /**
   * Two pointers pressing one button: the note starts sounding with the first
   * press only, keeps sounding when the first pointer lifts, and stops when
   * the second lifts (unless a third pointer was already holding it).
   */
  lemma {:induction false} Chording(b: Board, buttons: seq<Button>, p1: int, p2: int, note: int)
    requires Consistent(b) && EngineAgrees(b)
    requires p1 != p2 && p1 !in b.pointers && p2 !in b.pointers && OnBoard(buttons, note)
    ensures var b1 := PointerDown(b, buttons, p1, Some(note));
      var b2 := PointerDown(b1, buttons, p2, Some(note));
      var b3 := PointerUp(b2, p1);
      var b4 := PointerUp(b3, p2);
      note in b1.sounding && b2.sounding == b1.sounding && b3.sounding == b2.sounding &&
      b4.pointers == b.pointers && b4.active == b.active && b4.sounding == b.sounding &&
      (note !in b.active ==> note !in b4.sounding)
  {
    var b1 := PointerDown(b, buttons, p1, Some(note));
    var b2 := PointerDown(b1, buttons, p2, Some(note));
    var b3 := PointerUp(b2, p1);
    assert HeldByOther(b2.pointers, note, p1) by {
      assert p2 in b2.pointers && b2.pointers[p2] == note;
    }
    assert b3.pointers == b.pointers[p2 := note];
    var b4 := PointerUp(b3, p2);
    assert b4.pointers == b.pointers;
    assert HeldByOther(b3.pointers, note, p2) <==> note in HeldNotes(b.pointers) by {
      if note in HeldNotes(b.pointers) {
        var p := Holder(b.pointers, note);
        assert p in b3.pointers && p != p2 && b3.pointers[p] == note;
      }
    }
  }

  /**
   * Glissando: sliding a held pointer from note a onto another button's note n
   * releases a (unless another pointer holds it), sounds n, and re-points the
   * pointer at n; no other note changes.
   */
  lemma {:induction false} Glissando(b: Board, buttons: seq<Button>, pointerId: int, pressedButtons: int, note: int)
    requires Consistent(b) && EngineAgrees(b)
    requires pointerId in b.pointers && b.pointers[pointerId] != note && OnBoard(buttons, note)
    ensures var r := PointerMove(b, buttons, pointerId, pressedButtons, Some(note));
      var a := b.pointers[pointerId];
      r.pointers == b.pointers[pointerId := note] &&
      note in r.active && note in r.sounding &&
      (a in r.active <==> HeldByOther(b.pointers, a, pointerId)) &&
      (a in r.sounding <==> HeldByOther(b.pointers, a, pointerId)) &&
      forall m :: m != a && m != note ==> (m in r.active <==> m in b.active) && (m in r.sounding <==> m in b.sounding)
  {
    var a := b.pointers[pointerId];
    assert a in b.active;
  }

  /** Moving within the same button changes nothing. */
  lemma MoveOnSameNote(b: Board, buttons: seq<Button>, pointerId: int, pressedButtons: int)
    requires pointerId in b.pointers
    ensures PointerMove(b, buttons, pointerId, pressedButtons, Some(b.pointers[pointerId])) == b
  {
  }

  /**
   * Moving off every button drops the entry of that pointer and releases its note
   * under the last-holder rule.
   */
  lemma MoveOffBoard(b: Board, buttons: seq<Button>, pointerId: int, pressedButtons: int)
    requires pointerId in b.pointers
    ensures var r := PointerMove(b, buttons, pointerId, pressedButtons, None);
      r.pointers == b.pointers - {pointerId} &&
      r == StopNote(b, b.pointers[pointerId], pointerId).(pointers := b.pointers - {pointerId})
  {
  }

  /** A move of a pointer that never pressed, with no button held, is ignored. */
  lemma UntrackedHoverIgnored(b: Board, buttons: seq<Button>, pointerId: int, hit: Option<int>)
    requires pointerId !in b.pointers
    ensures PointerMove(b, buttons, pointerId, 0, hit) == b
  {
  }

  /** Up, cancel or leave of an untracked pointer is a no-op. */
  lemma UntrackedUpIgnored(b: Board, pointerId: int)
    requires pointerId !in b.pointers
    ensures PointerUp(b, pointerId) == b
  {
  }

  /**
   * Why pointer-down must come from an untracked pointer: a second down of a
   * pointer holding C3 onto Eb3 leaves C3 highlighted with no holder.
   */
  lemma TrackedDownLeavesStuckNote()
    ensures var buttons := [ButtonAt(0, 0, 3), ButtonAt(0, 1, 3)];
      var b := Board(map[7 := 48], {48}, {48});
      var r := PointerDown(b, buttons, 7, Some(51));
      Consistent(b) && 48 in r.active && 48 in r.sounding && !Consistent(r)
  {
    var buttons := [ButtonAt(0, 0, 3), ButtonAt(0, 1, 3)];
    assert OnBoard(buttons, 51) by { assert buttons[1].note == 51; }
    var b := Board(map[7 := 48], {48}, {48});
    assert HeldNotes(b.pointers) == {48} by { assert b.pointers[7] == 48; }
    var r := PointerDown(b, buttons, 7, Some(51));
    assert r.pointers == map[7 := 51];
    assert HeldNotes(r.pointers) == {51} by { assert r.pointers[7] == 51; }
  }

  // ---- arbitrary interleavings ---------------------------------------------

  /** The events the component listens to. */
  datatype Event =
    | Down(pointerId: int, hit: Option<int>)
    | Move(pointerId: int, pressedButtons: int, hit: Option<int>)
    | Up(pointerId: int)
    | Cancel(pointerId: int)
    | Leave(pointerId: int)

  /** One event, dispatched to its handler; it touches no entry of another pointer. */
  ghost function Step(b: Board, buttons: seq<Button>, e: Event): (r: Board)
    ensures forall p :: p != e.pointerId ==>
      (p in r.pointers <==> p in b.pointers) && (p in b.pointers ==> r.pointers[p] == b.pointers[p])
    ensures EngineAgrees(b) ==> EngineAgrees(r)
  {
    match e
    case Down(p, hit) => PointerDown(b, buttons, p, hit)
    case Move(p, pressed, hit) => PointerMove(b, buttons, p, pressed, hit)
    case Up(p) => PointerUp(b, p)
    case Cancel(p) => PointerUp(b, p)
    case Leave(p) => PointerUp(b, p)
  }

  ghost function Run(b: Board, buttons: seq<Button>, events: seq<Event>): Board
    decreases |events|
  {
    if |events| == 0 then b else Run(Step(b, buttons, events[0]), buttons, events[1..])
  }

  /** Every hit is a rendered button and every down comes from an untracked pointer. */
  ghost predicate Admissible(b: Board, buttons: seq<Button>, events: seq<Event>)
    decreases |events|
  {
    |events| == 0 ||
    (HitOnBoard(buttons, if events[0].Down? || events[0].Move? then events[0].hit else None) &&
     (events[0].Down? ==> events[0].pointerId !in b.pointers) &&
     Admissible(Step(b, buttons, events[0]), buttons, events[1..]))
  }

  /** The highlighted set, the pointer table and the engine agree after any interleaving. */
  lemma {:induction false} RunKeepsInvariants(b: Board, buttons: seq<Button>, events: seq<Event>)
    requires Consistent(b) && EngineAgrees(b) && Admissible(b, buttons, events)
    ensures Consistent(Run(b, buttons, events)) && EngineAgrees(Run(b, buttons, events))
    decreases |events|
  {
    if |events| > 0 {
      var e := events[0];
      match e {
        case Down(p, hit) =>
          DownKeepsConsistent(b, buttons, p, hit);
          HandlersKeepEngineAgreement(b, buttons, p, 0, hit);
        case Move(p, pressed, hit) =>
          MoveKeepsConsistent(b, buttons, p, pressed, hit);
          HandlersKeepEngineAgreement(b, buttons, p, pressed, hit);
        case Up(p) =>
          UpKeepsConsistent(b, p);
          HandlersKeepEngineAgreement(b, buttons, p, 0, None);
        case Cancel(p) =>
          UpKeepsConsistent(b, p);
          HandlersKeepEngineAgreement(b, buttons, p, 0, None);
        case Leave(p) =>
          UpKeepsConsistent(b, p);
          HandlersKeepEngineAgreement(b, buttons, p, 0, None);
      }
      RunKeepsInvariants(Step(b, buttons, e), buttons, events[1..]);
    }
  }
}
