/**
 * The Accordion component of src/components/Accordion.jsx as an object: its
 * pointer table and highlighted-note set are fields the pointer handlers
 * update in place, and the audio engine is an injected AudioEngine. Each
 * handler is specified by the matching transition of GestureSpec.
 */
module Accordion {
  import opened Wrappers
  import opened Layout
  import opened Audio
  import opened GestureSpec

  /**
   * The loop of stopNote: does a pointer other than `pointerId` hold `note`?
   * The source walks the map's entries in insertion order and breaks at the
   * first match; the answer does not depend on the order.
   */
  method StillHeld(pointers: map<int, int>, note: int, pointerId: int) returns (stillHeld: bool)
    ensures stillHeld <==> HeldByOther(pointers, note, pointerId)
  {
    stillHeld := false;
    var unvisited := pointers.Keys;
    // Guarded by an explicit witness rather than `unvisited != {}`: the
    // verifier does not derive a member of a non-empty set for the `:|` below.
    while exists p :: p in unvisited
      invariant unvisited <= pointers.Keys
      invariant forall p :: p in pointers && p !in unvisited ==> p == pointerId || pointers[p] != note
      decreases unvisited
    {
      var pid :| pid in unvisited;
      if pid != pointerId && pointers[pid] == note {
        stillHeld := true;
        assert HeldByOther(pointers, note, pointerId);
        break;
      }
      unvisited := unvisited - {pid};
    }
  }

  /** No voice of a note that keeps sounding is replaced. */
  ghost predicate VoicesKept(before: map<int, Voice>, after: map<int, Voice>)
  {
    forall n :: n in before && n in after ==> after[n] == before[n]
  }

  class Component {
    /** generateLayout(5, 14, 3), computed once. */
    const buttons: seq<Button>
    /** The audio engine the component drives. */
    const audio: AudioEngine
    /** pointersRef.current: pointer id -> note it holds. */
    var pointers: map<int, int>
    /** activeNotes: the highlighted notes. */
    var activeNotes: set<int>

    /** The component as a GestureSpec board. */
    ghost function State(): Board
      reads this, audio
    {
      Board(pointers, activeNotes, audio.activeNodes.Keys)
    }

    /** The engine sounds exactly the highlighted notes. */
    ghost predicate Valid()
      reads this, audio
    {
      EngineAgrees(State())
    }

    /** Every highlighted note has a pointer on it and vice versa. */
    ghost predicate Consistent()
      reads this, audio
    {
      GestureSpec.Consistent(State())
    }

    constructor (engine: AudioEngine)
      requires engine.activeNodes == map[]
      ensures audio == engine && pointers == map[] && activeNotes == {}
      ensures |buttons| == 70 && forall i :: 0 <= i < 70 ==> Placed(buttons, i, 14, 3)
      ensures forall note :: OnBoard(buttons, note) <==> 48 <= note <= 89
      ensures Valid() && Consistent()
    {
      var layout := GenerateLayout(5, 14, 3);
      buttons := layout;
      audio := engine;
      pointers := map[];
      activeNotes := {};
      new;
      forall note ensures OnBoard(buttons, note) <==> 48 <= note <= 89 {
        StandardBoardNotes(buttons, note);
      }
    }

    /** playNote */
    method PlayNote(note: int)
      requires Valid()
      modifies this, audio
      ensures State() == GestureSpec.PlayNote(old(State()), buttons, note)
      ensures Valid()
      ensures VoicesKept(old(audio.activeNodes), audio.activeNodes)
    {
      var btn := FindByNote(buttons, note);
      if btn.Some? {
        audio.Play(note);
        activeNotes := activeNotes + {note};
      }
    }

    /** stopNote */
    method StopNote(note: int, pointerId: int)
      requires Valid()
      modifies this, audio
      ensures State() == GestureSpec.StopNote(old(State()), note, pointerId)
      ensures Valid()
      ensures VoicesKept(old(audio.activeNodes), audio.activeNodes)
    {
      var stillHeld := StillHeld(pointers, note, pointerId);
      if !stillHeld {
        audio.Stop(note);
        activeNotes := activeNotes - {note};
      }
    }

    /** handlePointerDown; `hit` is getNoteFromEvent's answer. */
    method HandlePointerDown(pointerId: int, hit: Option<int>)
      requires Valid()
      modifies this, audio
      ensures State() == PointerDown(old(State()), buttons, pointerId, hit)
      ensures Valid()
      ensures old(Consistent()) && pointerId !in old(pointers) && HitOnBoard(buttons, hit) ==> Consistent()
      ensures VoicesKept(old(audio.activeNodes), audio.activeNodes)
    {
      ghost var before := State();
      var note := hit;
      if note.Some? {
        pointers := pointers[pointerId := note.value];
        PlayNote(note.value);
      }
      if GestureSpec.Consistent(before) && pointerId !in before.pointers && HitOnBoard(buttons, hit) {
        DownKeepsConsistent(before, buttons, pointerId, hit);
      }
    }

    /** handlePointerMove; `pressedButtons` is the event's `buttons` mask. */
    method HandlePointerMove(pointerId: int, pressedButtons: int, hit: Option<int>)
      requires Valid()
      modifies this, audio
      ensures State() == PointerMove(old(State()), buttons, pointerId, pressedButtons, hit)
      ensures Valid()
      ensures old(Consistent()) && HitOnBoard(buttons, hit) ==> Consistent()
      ensures VoicesKept(old(audio.activeNodes), audio.activeNodes)
    {
      ghost var before := State();
      if pointerId !in pointers && pressedButtons == 0 {
        return;
      }
      var newNote := hit;
      var oldNote := Lookup(pointers, pointerId);
      if Differs(newNote, oldNote) {
        if oldNote.Some? {
          StopNote(oldNote.value, pointerId);
        }
        if newNote.Some? {
          pointers := pointers[pointerId := newNote.value];
          PlayNote(newNote.value);
        } else {
          pointers := pointers - {pointerId};
        }
      }
      if GestureSpec.Consistent(before) && HitOnBoard(buttons, hit) {
        MoveKeepsConsistent(before, buttons, pointerId, pressedButtons, hit);
      }
    }

    /** handlePointerUp, also the pointer-cancel and pointer-leave handler. */
    method HandlePointerUp(pointerId: int)
      requires Valid()
      modifies this, audio
      ensures State() == PointerUp(old(State()), pointerId)
      ensures Valid()
      ensures old(Consistent()) ==> Consistent()
      ensures VoicesKept(old(audio.activeNodes), audio.activeNodes)
    {
      ghost var before := State();
      var note := Lookup(pointers, pointerId);
      if note.Some? {
        StopNote(note.value, pointerId);
        pointers := pointers - {pointerId};
      }
      if GestureSpec.Consistent(before) {
        UpKeepsConsistent(before, pointerId);
      }
    }
  }
}
