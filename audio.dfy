/**
 * Voice bookkeeping of the AudioEngine class in src/utils/audio.js.
 *
 * Only the `activeNodes` table is modelled: a map from MIDI note to the voice
 * (oscillator and gain node pair) sounding it. Voices are opaque objects; the
 * Web Audio graph, envelopes and timing are not part of the model.
 */
module Audio {

  /** An opaque sounding voice: the `{ source, gain }` pair of one note. */
  class Voice {
    constructor ()
    {
    }
  }

  /** The table after `play(note)` when `v` is the voice a fresh synth would get. */
  function Played<V>(nodes: map<int, V>, note: int, v: V): (r: map<int, V>)
    ensures note in r && r.Keys == nodes.Keys + {note}
    ensures note in nodes ==> r == nodes
    ensures note !in nodes ==> r[note] == v
    ensures forall k :: k in nodes && k != note ==> r[k] == nodes[k]
  {
    if note in nodes then nodes else nodes[note := v]
  }

  /** The table after `stop(note)`. */
  function Stopped<V>(nodes: map<int, V>, note: int): (r: map<int, V>)
    ensures note !in r && r.Keys == nodes.Keys - {note}
    ensures note !in nodes ==> r == nodes
    ensures forall k :: k in r ==> r[k] == nodes[k]
  {
    nodes - {note}
  }

  /** `play` is idempotent: a second play of a sounding note changes nothing. */
  lemma PlayIdempotent<V>(nodes: map<int, V>, note: int, v: V, w: V)
    ensures Played(Played(nodes, note, v), note, w) == Played(nodes, note, v)
  {
  }

  /** A sequence of plays of one note, the i-th offered voice vs[i]. */
  function PlayAll<V>(nodes: map<int, V>, note: int, vs: seq<V>): map<int, V>
    decreases |vs|
  {
    if vs == [] then nodes else PlayAll(Played(nodes, note, vs[0]), note, vs[1..])
  }

  /**
   * Repeated plays before a stop keep exactly the voice of the first play,
   * and every other note's entry is untouched.
   */
  lemma {:induction false} RepeatedPlaysKeepFirstVoice<V>(nodes: map<int, V>, note: int, vs: seq<V>)
    requires |vs| > 0 && note !in nodes
    ensures PlayAll(nodes, note, vs) == nodes[note := vs[0]]
  {
    var first := Played(nodes, note, vs[0]);
    assert first == nodes[note := vs[0]];
    PlaysOfSoundingNote(first, note, vs[1..]);
  }

  /** While a note sounds, any number of further plays leave the table as it is. */
  lemma {:induction false} PlaysOfSoundingNote<V>(nodes: map<int, V>, note: int, vs: seq<V>)
    requires note in nodes
    ensures PlayAll(nodes, note, vs) == nodes
  {
    if vs != [] {
      PlaysOfSoundingNote(Played(nodes, note, vs[0]), note, vs[1..]);
    }
  }

  /** After play then stop the note is silent and the rest of the table is as before. */
  lemma PlayThenStop<V>(nodes: map<int, V>, note: int, v: V)
    ensures Stopped(Played(nodes, note, v), note) == Stopped(nodes, note)
  {
  }

  class AudioEngine {
    /** note -> voice currently sounding it */
    var activeNodes: map<int, Voice>

    constructor ()
      ensures activeNodes == map[]
    {
      activeNodes := map[];
    }

    /** play: start a voice unless the note already has one. */
    method Play(note: int)
      modifies this
      ensures note in activeNodes
      ensures activeNodes == Played(old(activeNodes), note, activeNodes[note])
      ensures note !in old(activeNodes) ==> fresh(activeNodes[note])
    {
      if note in activeNodes {
        return;
      }
      PlaySynth(note);
    }

    /** stop: release and forget the note's voice; a silent note is left alone. */
    method Stop(note: int)
      modifies this
      ensures activeNodes == Stopped(old(activeNodes), note)
    {
      if note in activeNodes {
        activeNodes := activeNodes - {note};
      }
    }

    /** playSynth: build a new voice for the note and record it, unconditionally. */
    method PlaySynth(note: int)
      modifies this
      ensures note in activeNodes && fresh(activeNodes[note])
      ensures activeNodes == old(activeNodes)[note := activeNodes[note]]
    {
      var voice := new Voice();
      activeNodes := activeNodes[note := voice];
    }
  }
}
