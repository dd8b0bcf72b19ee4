/**
 * The notes of one ELF note section or note segment: the decoded note
 * records (owner name, type code, opaque descriptor) held in table order,
 * and the collection that binds them to the section or segment that
 * physically contains them.
 */
module NoteSection {

  /** One decoded note record. Immutable once built. */
  datatype ElfNote = ElfNote(name: string, noteType: nat, description: seq<bv8>)
  {
    /** A system-reserved empty note: one whose owner name is empty. */
    function IsEmptyNote(): (r: bool)
      ensures r <==> |name| == 0
    {
      name == ""
    }
  }

  /**
   * The section or segment that holds a note table, seen only through the
   * three facts the collection asks of it. Segments have no name, so an
   * unnamed region reports the empty string.
   */
  class SecSeg {
    var offset: nat
    var sizeInFile: nat
    var name: string

    constructor (offset: nat, sizeInFile: nat, name: string)
      ensures this.offset == offset && this.sizeInFile == sizeInFile && this.name == name
    {
      this.offset := offset;
      this.sizeInFile := sizeInFile;
      this.name := name;
    }
  }

  /**
   * All notes stored in one section or segment, in table order. The
   * collection refers to its region without owning it and is bound to it
   * once, at construction; the notes only ever grow at the end.
   */
  class ElfNotes {
    const secSeg: SecSeg
    var notes: seq<ElfNote>

    /** Binds a new, empty collection to the given section or segment. */
    constructor (assocSecSeg: SecSeg)
      ensures secSeg == assocSecSeg
      ensures notes == []
      ensures IsEmpty()
    {
      secSeg := assocSecSeg;
      notes := [];
    }

    /**
     * Appends one note at the end of the table. The region and every note
     * already stored are left as they were.
     */
    method AddNote(note: ElfNote)
      modifies this
      ensures notes == old(notes) + [note]
      ensures |notes| == |old(notes)| + 1 && notes[..|old(notes)|] == old(notes)
      ensures !IsEmpty()
      ensures unchanged(secSeg)
    {
      notes := notes + [note];
    }

    /** The stored notes as a value, in the order they were added. */
    function GetNotes(): (r: seq<ElfNote>)
      reads this
      ensures |r| == |notes|
      ensures forall i :: 0 <= i < |r| ==> r[i] == notes[i]
    {
      notes
    }

    /** File offset of the bound region, read from the region itself. */
    function GetSecSegOffset(): (r: nat)
      reads secSeg
      ensures r == secSeg.offset
    {
      secSeg.offset
    }

    /** Size in the file of the bound region, read from the region itself. */
    function GetSecSegLength(): (r: nat)
      reads secSeg
      ensures r == secSeg.sizeInFile
    {
      secSeg.sizeInFile
    }

    /** Name of the bound region; empty when the region is a segment. */
    function GetSectionName(): (r: string)
      reads secSeg
      ensures r == secSeg.name
    {
      secSeg.name
    }

    /** Whether the notes belong to a named section (rather than a segment). */
    function IsNamedSection(): (r: bool)
      reads secSeg
      ensures r <==> GetSectionName() != ""
      ensures !r <==> |secSeg.name| == 0
    {
      secSeg.name != ""
    }

    /** Whether the collection holds no notes at all. */
    function IsEmpty(): (r: bool)
      reads this
      ensures r <==> |GetNotes()| == 0
    {
      notes == []
    }
  }

  /**
   * The notes a collection holds once AddNote has been called with each
   * element of `added` in turn, starting from the notes `held`: each call
   * takes the table as the previous one left it and appends one note.
   */
  ghost function AfterAdding(held: seq<ElfNote>, added: seq<ElfNote>): seq<ElfNote>
    decreases |added|
  {
    if added == [] then held
    else AfterAdding(held + [added[0]], added[1..])
  }

  /** A series of additions leaves the old table followed by the new notes. */
  lemma {:induction false} AfterAddingAppends(held: seq<ElfNote>, added: seq<ElfNote>)
    ensures AfterAdding(held, added) == held + added
    decreases |added|
  {
    if added != [] {
      AfterAddingAppends(held + [added[0]], added[1..]);
      assert held + [added[0]] + added[1..] == held + added;
    }
  }

  /**
   * Append-only: a series of additions keeps every note already stored at
   * its position and grows the table by exactly the number of notes added.
   */
  lemma AppendOnly(held: seq<ElfNote>, added: seq<ElfNote>)
    ensures |AfterAdding(held, added)| == |held| + |added|
    ensures AfterAdding(held, added)[..|held|] == held
    ensures added != [] ==> AfterAdding(held, added)[|held| + |added| - 1] == added[|added| - 1]
  {
    AfterAddingAppends(held, added);
  }

  /** A collection filled from empty holds exactly the added notes, in insertion order. */
  lemma InsertionOrder(added: seq<ElfNote>)
    ensures AfterAdding([], added) == added
  {
    AfterAddingAppends([], added);
  }

  /**
   * How the note decoder feeds a collection: add each decoded note in table
   * order, one AddNote call per note.
   */
  method AddAll(c: ElfNotes, added: seq<ElfNote>)
    modifies c
    ensures c.notes == AfterAdding(old(c.notes), added)
    ensures c.notes == old(c.notes) + added
    ensures unchanged(c.secSeg)
  {
    var i := 0;
    while i < |added|
      invariant 0 <= i <= |added|
      invariant c.notes == old(c.notes) + added[..i]
    {
      c.AddNote(added[i]);
      assert added[..i + 1] == added[..i] + [added[i]];
      i := i + 1;
    }
    assert added[..i] == added;
    AfterAddingAppends(old(c.notes), added);
  }

  /** A collection built by the decoder: bound to its region, then filled in table order. */
  method Collect(region: SecSeg, added: seq<ElfNote>) returns (c: ElfNotes)
    ensures fresh(c)
    ensures c.secSeg == region && c.notes == AfterAdding([], added)
    ensures c.GetNotes() == added
    ensures c.IsEmpty() <==> added == []
  {
    c := new ElfNotes(region);
    AddAll(c, added);
  }
}
