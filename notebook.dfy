/**
 * `FileNotebook`: an ordered, in-memory list of notes that `addNote` appends
 * to and `deleteNote` filters by uid.
 */
module Notebook {
  import opened Colors
  import opened Notes

  /** `notes.filter { $0.uid != uid }`: the notes whose uid differs, in order. */
  function WithoutUid(notes: seq<Note>, uid: string): (r: seq<Note>)
    ensures |r| <= |notes|
    ensures forall i :: 0 <= i < |r| ==> r[i].uid != uid
    ensures forall n :: n in r <==> n in notes && n.uid != uid
  {
    if notes == [] then []
    else (if notes[0].uid != uid then [notes[0]] else []) + WithoutUid(notes[1..], uid)
  }

  /** Filtering distributes over concatenation: kept notes stay in their
      original relative order. */
  lemma {:induction false} WithoutUidAppend(a: seq<Note>, b: seq<Note>, uid: string)
    ensures WithoutUid(a + b, uid) == WithoutUid(a, uid) + WithoutUid(b, uid)
  {
    if a == [] {
      assert a + b == b;
    } else {
      assert (a + b)[1..] == a[1..] + b;
      WithoutUidAppend(a[1..], b, uid);
    }
  }

  /** Deleting a uid no note carries changes nothing. */
  lemma {:induction false} WithoutAbsentUid(notes: seq<Note>, uid: string)
    requires forall i :: 0 <= i < |notes| ==> notes[i].uid != uid
    ensures WithoutUid(notes, uid) == notes
  {
    if notes != [] {
      WithoutAbsentUid(notes[1..], uid);
    }
  }

  /** Deleting the same uid twice is the same as deleting it once. */
  lemma WithoutUidIdempotent(notes: seq<Note>, uid: string)
    ensures WithoutUid(WithoutUid(notes, uid), uid) == WithoutUid(notes, uid)
  {
    WithoutAbsentUid(WithoutUid(notes, uid), uid);
  }

  /** The number of notes deleting `uid` removes. */
  function CountUid(notes: seq<Note>, uid: string): (k: nat)
    ensures k <= |notes|
  {
    if notes == [] then 0
    else (if notes[0].uid == uid then 1 else 0) + CountUid(notes[1..], uid)
  }

  /** Every note with the uid goes, duplicates included, and no other. */
  lemma {:induction false} WithoutUidLength(notes: seq<Note>, uid: string)
    ensures |WithoutUid(notes, uid)| == |notes| - CountUid(notes, uid)
  {
    if notes != [] {
      WithoutUidLength(notes[1..], uid);
    }
  }

  class FileNotebook {
    /** `private(set) var notes`: readable by all, changed only by the methods. */
    var notes: seq<Note>

    constructor ()
      ensures notes == []
    {
      notes := [];
    }

    /** `addNote(note:)`: appends; a uid already present is not checked for. */
    method AddNote(note: Note)
      modifies this
      ensures notes == old(notes) + [note]
    {
      notes := notes + [note];
    }

    /** `deleteNote(uid:)`: keeps exactly the notes with a different uid. */
    method DeleteNote(uid: string)
      modifies this
      ensures notes == WithoutUid(old(notes), uid)
    {
      notes := WithoutUid(notes, uid);
    }
  }

  /** The playground's script: add a note with uid "22", delete "22", add the
      same note again. One note is left, and its uid is "22". */
  method PlaygroundScript() returns (final: seq<Note>)
    ensures |final| == 1 && final[0].uid == "22"
    ensures final == [Note("test", "data", Normal, "22", Black)]
  {
    var a := new FileNotebook();
    var e := NewNote("test", "data", Normal, "22", Black);
    a.AddNote(e);
    a.DeleteNote("22");
    a.AddNote(e);
    final := a.notes;
  }

  /** Adding the same note twice keeps both copies; deleting its uid then
      removes both. */
  method AddTwiceThenDelete(n: Note) returns (afterAdds: seq<Note>, afterDelete: seq<Note>)
    ensures afterAdds == [n, n]
    ensures afterDelete == []
  {
    var a := new FileNotebook();
    a.AddNote(n);
    a.AddNote(n);
    afterAdds := a.notes;
    a.DeleteNote(n.uid);
    afterDelete := a.notes;
  }
}
