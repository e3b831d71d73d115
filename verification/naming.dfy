/** Octave naming of classified notes (src/scripts.js lines 89, 107 and 133):
    the first occurrence of a note in a run gets octave 4, every later one octave 5. */
module Naming {
  import opened Photism

  const FirstOctave: string := "4"
  const LaterOctave: string := "5"

  /** `note + (~existingNotes.indexOf(note) ? '5' : '4')`: `~i` is zero, hence
      false, exactly when `indexOf` reports -1. */
  function FinalNote(existing: seq<Note>, note: Note): (name: string)
    ensures name == note + FirstOctave <==> note !in existing
    ensures name == note + LaterOctave <==> note in existing
  {
    assert (note + FirstOctave)[|note|] != (note + LaterOctave)[|note|];
    note + (if note in existing then LaterOctave else FirstOctave)
  }

  /** Names `notes` in order, `existing` holding the notes named before them;
      each note is pushed onto `existing` after it is named. */
  function NameFrom(existing: seq<Note>, notes: seq<Note>): (names: seq<string>)
    ensures |names| == |notes|
    ensures forall i :: 0 <= i < |notes| ==> names[i] == FinalNote(existing + notes[..i], notes[i])
    decreases |notes|
  {
    if |notes| == 0 then []
    else
      var rest := NameFrom(existing + [notes[0]], notes[1..]);
      PushedPrefix(existing, notes);
      [FinalNote(existing, notes[0])] + rest
  }

  /** Pushing the first note onto `existing` and naming the rest sees the same
      earlier notes at every later position. */
  lemma PushedPrefix(existing: seq<Note>, notes: seq<Note>)
    requires |notes| > 0
    ensures forall i :: 1 <= i < |notes| ==> existing + notes[..i] == (existing + [notes[0]]) + notes[1..][..i - 1]
  {
    forall i | 1 <= i < |notes|
      ensures existing + notes[..i] == (existing + [notes[0]]) + notes[1..][..i - 1]
    {
      assert notes[..i] == [notes[0]] + notes[1..][..i - 1];
    }
  }

  /** The names of one run, which starts with no existing notes. */
  function NameAll(notes: seq<Note>): (names: seq<string>)
    ensures |names| == |notes|
    ensures forall i :: 0 <= i < |notes| ==> (names[i] == notes[i] + FirstOctave <==> notes[i] !in notes[..i])
    ensures forall i :: 0 <= i < |notes| ==> (names[i] == notes[i] + LaterOctave <==> notes[i] in notes[..i])
  {
    var names := NameFrom([], notes);
    forall i | 0 <= i < |notes|
      ensures names[i] == FinalNote(notes[..i], notes[i])
      ensures notes[i] + FirstOctave != notes[i] + LaterOctave
    {
      assert [] + notes[..i] == notes[..i];
      assert (notes[i] + FirstOctave)[|notes[i]|] != (notes[i] + LaterOctave)[|notes[i]|];
    }
    names
  }

  /** A name is its note followed by one octave digit. */
  lemma NameShape(notes: seq<Note>, i: int)
    requires 0 <= i < |notes|
    ensures |NameAll(notes)[i]| == |notes[i]| + 1
    ensures NameAll(notes)[i][..|notes[i]|] == notes[i]
    ensures NameAll(notes)[i] == notes[i] + FirstOctave || NameAll(notes)[i] == notes[i] + LaterOctave
  {
    var names := NameAll(notes);
    if notes[i] in notes[..i] {
      assert names[i] == notes[i] + LaterOctave;
    } else {
      assert names[i] == notes[i] + FirstOctave;
    }
  }

  /** A string of decimal digits only: the shape of a key JavaScript would
      enumerate before the others, in numeric order. */
  predicate AllDigits(s: string) {
    |s| > 0 && forall k :: 0 <= k < |s| ==> '0' <= s[k] <= '9'
  }

  /** A note key that starts with a non-digit, such as a letter, yields a
      name that is not an array index, so the registry keeps insertion order. */
  lemma NameNotIndex(notes: seq<Note>, i: int)
    requires 0 <= i < |notes| && |notes[i]| > 0 && !('0' <= notes[i][0] <= '9')
    ensures !AllDigits(NameAll(notes)[i])
  {
    NameShape(notes, i);
    assert NameAll(notes)[i][0] == NameAll(notes)[i][..|notes[i]|][0];
  }

  lemma AppendDigitInjective(a: string, x: string, b: string, y: string)
    requires |x| == 1 && |y| == 1
    requires a + x == b + y
    ensures a == b && x == y
  {
    assert |a| == |b|;
    assert a == (a + x)[..|a|];
    assert b == (b + y)[..|b|];
    assert x == (a + x)[|a|..];
    assert y == (b + y)[|b|..];
  }

  /** Two positions share a name exactly when they carry the same note and
      the earlier one is already a repeat, so a note's third occurrence
      collides with its second. */
  lemma NamesCollide(notes: seq<Note>, i: int, j: int)
    requires 0 <= i < j < |notes|
    ensures NameAll(notes)[i] == NameAll(notes)[j] <==> notes[i] == notes[j] && notes[i] in notes[..i]
  {
    var names := NameAll(notes);
    var di := if notes[i] in notes[..i] then LaterOctave else FirstOctave;
    var dj := if notes[j] in notes[..j] then LaterOctave else FirstOctave;
    assert names[i] == notes[i] + di;
    assert names[j] == notes[j] + dj;
    if names[i] == names[j] {
      AppendDigitInjective(notes[i], di, notes[j], dj);
    }
    if notes[i] == notes[j] {
      assert notes[..j][i] == notes[j];
    }
  }

  /** A concrete instance: three red samples classified as 'A' give A4, A5, A5. */
  lemma ThirdOccurrenceCollides()
    ensures NameAll(["A", "A", "A"]) == ["A4", "A5", "A5"]
  {
    var notes: seq<Note> := ["A", "A", "A"];
    assert notes[..0] == [];
    assert notes[..1] == ["A"];
    assert notes[..2] == ["A", "A"];
    assert "A" + FirstOctave == "A4";
    assert "A" + LaterOctave == "A5";
  }

  /** The names `n + digit` for every note `n` of `notes`. */
  function Tagged(notes: set<Note>, digit: string): set<string> {
    set n | n in notes :: n + digit
  }

  lemma {:induction false} TaggedCardinality(notes: set<Note>, digit: string)
    ensures |Tagged(notes, digit)| <= |notes|
    decreases |notes|
  {
    if notes != {} {
      var n :| n in notes;
      TaggedCardinality(notes - {n}, digit);
      assert Tagged(notes, digit) == Tagged(notes - {n}, digit) + {n + digit};
    }
  }

  /** The occurrences of note `n` receive only the names `n` + "4" and
      `n` + "5", so at most two distinct names. */
  lemma NamesOfOneNote(notes: seq<Note>, n: Note)
    ensures (set i | 0 <= i < |notes| && notes[i] == n :: NameAll(notes)[i]) <= {n + FirstOctave, n + LaterOctave}
    ensures |set i | 0 <= i < |notes| && notes[i] == n :: NameAll(notes)[i]| <= 2
  {
    var names := NameAll(notes);
    var given := set i | 0 <= i < |notes| && notes[i] == n :: names[i];
    forall x | x in given
      ensures x == n + FirstOctave || x == n + LaterOctave
    {
      var i :| 0 <= i < |notes| && notes[i] == n && names[i] == x;
      if notes[i] in notes[..i] {
        assert x == notes[i] + LaterOctave;
      } else {
        assert x == notes[i] + FirstOctave;
      }
    }
    SubsetCardinality(given, {n + FirstOctave, n + LaterOctave});
  }

  /** In total a run produces at most two distinct names per distinct note. */
  lemma AtMostTwoNamesPerNote(notes: seq<Note>)
    ensures |set x | x in NameAll(notes)| <= 2 * |set n | n in notes|
  {
    var names := NameAll(notes);
    var letters := set n | n in notes;
    var fours := Tagged(letters, FirstOctave);
    var fives := Tagged(letters, LaterOctave);
    forall x | x in names
      ensures x in fours + fives
    {
      var i :| 0 <= i < |names| && names[i] == x;
      if notes[i] in notes[..i] {
        assert x == notes[i] + LaterOctave;
      } else {
        assert x == notes[i] + FirstOctave;
      }
    }
    TaggedCardinality(letters, FirstOctave);
    TaggedCardinality(letters, LaterOctave);
    assert (set x | x in names) <= fours + fives;
    SubsetCardinality((set x | x in names), fours + fives);
  }

  lemma SubsetCardinality<T>(a: set<T>, b: set<T>)
    requires a <= b
    ensures |a| <= |b|
  {
    assert b == a + (b - a);
  }
}
