# ELF notes of a section or segment

A Dafny model of the note-collection types of retdec's file-format library
(`src/fileformat/types/note_section/elf_notes.cpp`). An ELF note is a
self-describing metadata record such as a build ID, an ABI tag or core-dump
registers. Each record has an owner name, a type code and an opaque
descriptor. The notes of one note section (`SHT_NOTE`) or one note segment
(`PT_NOTE`) are kept together with the region that holds them.

- `ElfNote` is a datatype: one decoded note record. Its only behaviour is the
  "system-reserved empty note" predicate, which holds when the owner name is
  empty.
- `SecSeg` is a class with fields `offset`, `sizeInFile` and `name`. It is the
  section or segment, referenced but not owned by the collection. A segment has
  no name, so it reports `""`.
- `ElfNotes` is a class. Its `const secSeg` field is bound once at construction
  and never rebound. Its `var notes: seq<ElfNote>` field only grows at the end,
  through `AddNote`. The queries are functions: they read the stored sequence,
  or they read the bound region's current fields.
- `AfterAdding` is a ghost function. It gives the table left by a series of
  `AddNote` calls. The lemmas about it state the append-only, order-preserving
  nature of the collection. `AddAll` calls the real `AddNote` once per note on
  any collection, and its postcondition links that function to the class's
  methods. `Collect` is the caller's pattern (bind, then add in table order).

`GetNotes` returns a sequence value. Dafny sequences are immutable values, so
a caller's copy is independent of later additions by construction.

## Model

| member | source | states |
|---|---|---|
| `NoteSection.ElfNote.IsEmptyNote` | src/fileformat/types/note_section/elf_notes.cpp:16-19 | a note is the reserved empty note exactly when its owner name has length zero |
| `NoteSection.ElfNotes.constructor` | src/fileformat/types/note_section/elf_notes.cpp:25-27 | the new collection is bound to the given region and holds no notes, so `IsEmpty()` holds |
| `NoteSection.ElfNotes.AddNote` | src/fileformat/types/note_section/elf_notes.cpp:40-52 | the new table is the old table followed by the note; its length grows by one, earlier entries keep their positions, the collection becomes non-empty, and the region is unchanged |
| `NoteSection.ElfNotes.GetNotes` | src/fileformat/types/note_section/elf_notes.cpp:58-61 | returns a sequence of the same length as the stored table, with the same note at every position, i.e. the notes in insertion order; as a function it changes nothing |
| `NoteSection.ElfNotes.GetSecSegOffset` | src/fileformat/types/note_section/elf_notes.cpp:67-70 | equals the bound region's current file offset; reads only the region (the binding is a `const`), so `AddNote`, which modifies only the collection, cannot change it |
| `NoteSection.ElfNotes.GetSecSegLength` | src/fileformat/types/note_section/elf_notes.cpp:76-79 | equals the bound region's current size in the file |
| `NoteSection.ElfNotes.GetSectionName` | src/fileformat/types/note_section/elf_notes.cpp:85-88 | equals the bound region's name; `""` for an unnamed segment |
| `NoteSection.ElfNotes.IsNamedSection` | src/fileformat/types/note_section/elf_notes.cpp:94-97 | holds exactly when `GetSectionName()` is non-empty; false exactly when the region's name has length zero |
| `NoteSection.ElfNotes.IsEmpty` | src/fileformat/types/note_section/elf_notes.cpp:103-106 | holds exactly when the sequence `GetNotes()` returns has length zero |
| `NoteSection.AfterAddingAppends` | src/fileformat/types/note_section/elf_notes.cpp:40-52 | any series of `AddNote` calls leaves the old table followed by the added notes, in the order they were added (proved by induction on the series) |
| `NoteSection.AppendOnly` | src/fileformat/types/note_section/elf_notes.cpp:40-52 | a series of additions keeps every stored note at its position, grows the table by exactly the number of notes added, and puts the last one added at the end |
| `NoteSection.InsertionOrder` | src/fileformat/types/note_section/elf_notes.cpp:40-61 | a collection filled from empty holds exactly the added notes at the same positions, e.g. adding `e1, e2, e3` gives `[e1, e2, e3]` |
| `NoteSection.AddAll` | src/fileformat/types/note_section/elf_notes.cpp:40-52 | calling the real `AddNote` once per note on any collection, empty or not, leaves exactly `AfterAdding` of its old table: the old table followed by the added notes in order; the bound region is unchanged |
| `NoteSection.Collect` | src/fileformat/types/note_section/elf_notes.cpp:25-52 | constructing a collection on a region and calling `AddNote` for each note in turn yields a collection bound to that region whose `GetNotes()` is exactly those notes in order, and which is empty exactly when no note was added |

## Left out

- The two `addNote` overloads (move, lines 40-43, and copy, lines 49-52) are one method, `AddNote`, which takes the note by value. Dafny values have no move or copy semantics, so the two overloads have the same effect in the model by construction.
- The destructor (lines 32-34) does nothing and is not modelled.
- `SecSeg`'s own accessors (`getOffset`, `getSizeInFile`, `getName`) are declared in headers that are not part of this model. The region is a class with three fields that the collection reads and never writes. The region reference is never null (the type `SecSeg` is non-nullable), although the source constructor accepts a null `const SecSeg*`; calling a query on such a collection would be undefined behaviour there. That the region outlives the collection is given by Dafny's memory model and is not stated separately.
- `std::size_t` width: offsets and sizes are `nat`, so wrap-around is not modelled.
- The byte-level decoder that reads note tables and builds `ElfNote` values is not part of this model. Nothing here parses bytes. `AddAll` and `Collect` stand in for its use of the collection.
- The meaning of the note type codes and of the descriptor bytes is not modelled. They are carried as opaque values.
